# BOLO repository/service layer in Dafny

This project models the repository/service layer of the BOLO ("Be On the
LookOut") flier application. It covers three pieces:

- **`UserService`**: the account rules. It checks credentials, registers a user
  after a validity check and a username-uniqueness check, resets a password by
  read-modify-write, and shapes untrusted input into a user record
  (`formatDTO`).
- **`CloudantUserStorageAdapter`**: the user repository over the document
  database. It tags outgoing documents with `Type: "user"` and reads back the
  id the store assigned. `userTransform` renames `_id` to `id` and strips
  `_id`, `_rev` and `Type`. Lookup by username goes through the
  `users/by_username` view. Remove refuses a falsy id, then deletes by id and
  revision.
- **`BoloService`**: turns bolo writes into a `{success, error}` envelope that
  always resolves. Reads and deletes pass straight through to the bolo
  repository.

## Layout

| file | module | what it holds |
|---|---|---|
| `json.dfy` | `Json` | JavaScript values (`undefined`, `null`, booleans, numbers, strings), records as maps, truthiness, `String(v)` |
| `outcomes.dfy` | `Outcomes` | `Outcome<T>`: resolves, rejects, or throws synchronously; `Step` = state plus outcome |
| `id_order.dfy` | `IdOrder` | lexicographic order on ids, proved total; least element; ascending listing of a set |
| `entities.dfy` | `Entities` | `User`, `Bolo`, their recognised key sets, the constructors, `diff` |
| `doc_store.dfy` | `DocStore` | the database: a map from id to document with revision; insert, get, put, destroy, the by-username view |
| `cloudant_user_repository.dfy` | `CloudantUserRepository` | the user adapter and its round-trip lemmas |
| `ports.dfy` | `Ports` | the user and bolo repository ports, and the call logs services report |
| `user_service.dfy` | `UserService` | the user service, generic over any user port whose reads return fresh objects |
| `bolo_service.dfy` | `BoloService` | the bolo service, generic over any bolo port |
| `deployment.dfy` | `Deployment` | the user service wired to the Cloudant adapter; whole-request scenarios |

## How the model works

- **Outcomes.** A JavaScript call here can end in one of three ways, and
  `Outcome<T>` names them: `Resolves`, `Rejects` (the returned promise
  rejects), or `Throws` (a synchronous exception before any promise exists).
  If a callback inside `then` throws, the derived promise rejects (`Settle`).
  Every error is an `Error`, so it carries a message string, and `String(err)`
  is `"Error: " + message`.
- **Ports.** A port is a datatype of total functions `(S, args) -> Step<S, T>`
  over some storage state `S`. The services are generic in `S`. Every service
  function returns `Run(state, calls, out)`. `calls` lists the port calls made,
  in order, so "makes no repository call" is the statement `calls == []`.
- **Validity.** `isValid` of the domain entities is passed to the services as
  a predicate parameter and left uninterpreted.
- **Store.** The document store is `Db(docs, next, link)`:
  - `docs` maps each id to a document, and each document carries a revision.
  - `Uuid(next)` stands in for the server's id generator.
  - `link = Down(cause)` makes every request fail with `cause`.
  - A written body loses its `undefined` fields, as JSON serialisation drops
    them (`Defined`), so no stored body holds `undefined` (`Wf`).
  - `get` with the empty id answers the database information record.
- **View rows.** The `users/by_username` view lists user documents whose
  `username` equals the key. Rows are ordered by document id
  (`IdOrder.LexLe`), and `include_docs` puts each document inline in its row.

A few behaviours of the code are easy to misread; the model follows the
code in each:

- **`resetPassword` error message.** The read handler's
  `new Error('Unable to get current user data: ', error.message)` ignores its
  second argument, and the final `catch` replaces that error with
  `Error saving password to repository: `. So a failed read and a failed
  write both reject with that one message
  (src/core/service/user-service.js:120-124).
- **`createBolo` validity.** `Promise.reject(...)` for invalid data is built
  and discarded, so the insert runs for any data
  (src/core/service/bolo-service.js:37-42; see Findings).
- **`remove` and falsy ids.** `remove` throws synchronously for any falsy id,
  `""` included, before any request
  (src/core/adapters/persistence/cloudant-user-repository.js:82).
- **Error messages, operation by operation.** `insert` rejects with
  `Problem adding user`, without the cause, when the answer's `ok` is false
  (src/core/adapters/persistence/cloudant-user-repository.js:34). It passes a
  store rejection through unchanged (:41-43). `getById` and `remove` reject
  with a fixed prefix followed by `String(cause)`, for example
  `Failed to get user by id: Error: missing` (:53-56, :88-91).
  `getByUsername` rejects with the one message
  `Failed to get user by username` and drops the cause (:71-74).
- **Empty id on `getById`.** The model assumes that the client leaves the
  document segment off the request for an empty document name. It draws
  this from the comment at
  src/core/adapters/persistence/cloudant-user-repository.js:79-81, which
  says this of `db.destroy` with a `null`/`undefined` name. Under that
  assumption, `db.get("")` answers with the database information, which has
  no `_id`. The guard at line 49 then rejects with
  `Failed to get user by id: Error: [object Object]`.
- **`undefined` fields.** The document goes to the server as JSON, and JSON
  drops keys whose value is `undefined`. A field a user record holds as
  `undefined` is therefore absent from the stored document, and reads back
  as the constructor's `null`.

## Model

| member | source | states |
|---|---|---|
| `Json.Defined` | src/core/adapters/persistence/cloudant-user-repository.js:32 | what of a record reaches the server: keys holding `undefined` are dropped, and reading any key gives what it gave before |
| `DocStore.Body` | src/core/adapters/persistence/cloudant-user-repository.js:32 | the body the server keeps for a written document: no `_id`/`_rev`, no `undefined` field, every other field as sent |
| `DocStore.Get` | src/core/adapters/persistence/cloudant-user-repository.js:47 | never changes the store; resolves exactly for an existing id when the link is up, with the document and its `_id`/`_rev`; the empty id answers the database information, which has no `_id` |
| `DocStore.Insert` | src/core/adapters/persistence/cloudant-user-repository.js:32 | `db.insert` of a new document succeeds exactly when the link is up and the server's next id `Uuid(next)` is unused; it then stores the body at revision 1 under that id, answers `{ok: true, id, rev: 1}` and leaves every other document as it was. A failure leaves the store unchanged |
| `DocStore.Put` | src/core/adapters/persistence/cloudant-user-repository.js:32 | `db.insert` of a document carrying `_id`/`_rev` succeeds exactly when the link is up, the id is stored and the revision is current; it then replaces only that document's body, at the next revision. A failure leaves the store unchanged |
| `DocStore.Destroy` | src/core/adapters/persistence/cloudant-user-repository.js:86 | `db.destroy(id, rev)` succeeds exactly when the link is up, the id is stored and the revision is current; it then removes only that document and answers `ok` with the id. A failure leaves the store unchanged |
| `DocStore.WritesPreserveWf` | src/core/adapters/persistence/cloudant-user-repository.js:32 | insert, overwrite and destroy keep every stored body free of `undefined` |
| `Entities.Persisted` | src/core/adapters/persistence/cloudant-user-repository.js:51 | a user as it reads back after a trip through the store: exactly the recognised keys, `undefined` fields become `null`, the rest unchanged |
| `Entities.PersistedIdentity` | src/core/adapters/persistence/cloudant-user-repository.js:51 | a user over exactly the recognised keys with no `undefined` field reads back unchanged |
| `Entities.PersistedOfNew` | src/core/adapters/persistence/cloudant-user-repository.js:29 | building the user with the constructor before storing it changes nothing of what reads back |
| `CloudantUserRepository.UserTransform` | src/core/adapters/persistence/cloudant-user-repository.js:144-149 | the result has the fetched keys minus `_id`, `_rev`, `Type`, plus `id`; `id` is the fetched `_id`; every other field is unchanged |
| `CloudantUserRepository.TransformInvertsTagging` | src/core/adapters/persistence/cloudant-user-repository.js:144-149 | read after store: tagging a record, storing it under `id` and applying `userTransform` to the fetched document gives the record with `id` set to the store's id; only its `undefined` fields are lost |
| `CloudantUserRepository.TaggingInvertsTransform` | src/core/adapters/persistence/cloudant-user-repository.js:144-149 | store after read: tagging what `userTransform` makes of a fetched user document gives back the document's body, apart from the `id` key the read adds |
| `CloudantUserRepository.FinishInsert` | src/core/adapters/persistence/cloudant-user-repository.js:33-39 | rejects with `Problem adding user` exactly when the response's `ok` is false; otherwise returns the document with `Type` removed and `id` set from the response, other fields unchanged |
| `CloudantUserRepository.Insert` | src/core/adapters/persistence/cloudant-user-repository.js:28-44 | succeeds exactly when the store accepts the write. On success: the stored document is the user's record tagged `Type = "user"`, with the `undefined` fields JSON drops; every other document is untouched; the result is the input record with `id` set to the assigned id. On failure the store is unchanged |
| `CloudantUserRepository.InsertChangesOnlyId` | test/integration/cloudant-user-repository-test.js:31-42 | `diff(input, inserted)` is exactly `{"id"}` for a user over the recognised keys |
| `CloudantUserRepository.InsertThenGetById` | test/integration/cloudant-user-repository-test.js:44-53 | `getById` with the id insert assigned returns the user insert returned, its `undefined` fields read back as `null`; exactly that user when the input had no `undefined` field |
| `CloudantUserRepository.InsertNamesOnlyNewDoc` | src/core/adapters/persistence/cloudant-user-repository.js:28-32 | after an insert, the `by_username` view lists the new document under the new user's username, on top of what it listed before. Under every other key it lists exactly what it listed before |
| `CloudantUserRepository.InsertThenGetByUsername` | test/integration/cloudant-user-repository-test.js:62-74 | after inserting a user whose username nobody had, `getByUsername` returns that user, its `undefined` fields read back as `null` |
| `CloudantUserRepository.InsertThenRemove` | test/integration/cloudant-user-repository-test.js:76-86 | removing the just-inserted id answers `ok` with the same id and restores the documents exactly |
| `CloudantUserRepository.FromFetched` | src/core/adapters/persistence/cloudant-user-repository.js:48-52 | rejects with `Failed to get user by id: Error: [object Object]` exactly when the fetched document's `_id` is falsy; otherwise gives a user over the recognised keys, with `id` from `_id` |
| `CloudantUserRepository.EntityOf` | src/core/adapters/persistence/cloudant-user-repository.js:50-51 | a stored document reads back as a user over the recognised keys: `id` is the document id, other keys are the stored value or `null` |
| `CloudantUserRepository.EntityOfStored` | src/core/adapters/persistence/cloudant-user-repository.js:28-32 | a document written from a user record (with or without its `id` key), tagged `Type = "user"`, reads back as the recognised fields of that record with `id` set to the document id and `undefined` fields as `null` |
| `CloudantUserRepository.GetById` | src/core/adapters/persistence/cloudant-user-repository.js:46-58 | never changes the store. Resolves exactly when the link is up and a document with that non-empty id exists, giving its fields with `id` set. Every failure is wrapped as `Failed to get user by id: …`; the empty id reads the database information and fails the `_id` guard with `Failed to get user by id: Error: [object Object]` |
| `DocStore.ViewByUsername` | src/core/adapters/persistence/cloudant-user-repository.js:61-65 | exactly one row per user document with that username (as many rows as matches, each a match, ids strictly ascending), each carrying its document; fails only when the link is down |
| `CloudantUserRepository.GetByUsername` | src/core/adapters/persistence/cloudant-user-repository.js:60-76 | `null` exactly when no user document has that username; otherwise the first row's user (least id), whose `username` is the key and whose `id` is that document's id. Fails only on a store failure, with the cause dropped |
| `CloudantUserRepository.Remove` | src/core/adapters/persistence/cloudant-user-repository.js:78-93 | a falsy id throws, and the store is unchanged. Otherwise it resolves exactly when the document exists, deleting only it and echoing `ok` and the id. A missing id rejects with `Failed to delete user: …` and leaves the store unchanged |
| `CloudantUserRepository.Update` | src/core/service/user-service.js:117-119 | the `update` the service needs: resolves exactly when the user's id is a non-empty string naming a stored document; it then rewrites only that document, at the next revision |
| `CloudantUserRepository.UpdateThenGetById` | src/core/service/user-service.js:117-119 | after a successful update, reading the user back gives the written user's recognised fields, `undefined` ones as `null` |
| `UserService.Authenticate` | src/core/service/user-service.js:36-47 | one lookup by username. Resolves whenever the lookup resolves. The result is the looked-up user exactly when one exists and its stored password equals the supplied one, otherwise `null` |
| `UserService.DeserializeId` | src/core/service/user-service.js:56-60 | `deserializeId`/`getUser` return the repository's `getById` result unchanged, after exactly one call |
| `UserService.RegisterUser` | src/core/service/user-service.js:91-108 | An invalid user throws `User registration invalid` with no call and the state unchanged. An existing username rejects with `User already registered: <name>` after the lookup alone. Otherwise the result is the repository's insert of the new user |
| `UserService.RegisterUserInsertsOnlyFreshNames` | src/core/service/user-service.js:95-106 | insert is called if and only if the user is valid and the username lookup resolved to `null` |
| `UserService.GetUsers` | src/core/service/user-service.js:110-112 | the repository's `getAll` result, unchanged, after exactly one call |
| `UserService.WithPassword` | src/core/service/user-service.js:117-118 | the written-back user differs from the fetched one at most in `password`, which now holds the new value |
| `UserService.ResetPassword` | src/core/service/user-service.js:114-126 | reads, then writes back the user with only the password changed. A failed read, or a failed or throwing write, rejects with `Error saving password to repository: ` and drops the cause. A failed read makes no update call |
| `UserService.RemoveUser` | src/core/service/user-service.js:134-136 | the repository's `remove` result, unchanged, after exactly one call |
| `UserService.FormatDTO` | src/core/service/user-service.js:146-154 | the result's keys are exactly the recognised user keys. Each value is the input's value when truthy, otherwise `null` (so `""` becomes `null`) |
| `UserService.FormatDTOIdempotent` | src/core/service/user-service.js:146-154 | `formatDTO(formatDTO(x)) == formatDTO(x)` |
| `UserService.FormatDTOIgnoresUnknownKeys` | src/core/service/user-service.js:146-154 | inputs that agree on the recognised keys shape alike, whatever other keys they carry |
| `BoloService.Wrap` | src/core/service/bolo-service.js:43-48 | a resolved write gives `{success: true}`; a rejected write gives `{success: false, error: message}`; only a synchronous throw escapes |
| `BoloService.CreateBolo` | src/core/service/bolo-service.js:34-49 | exactly one insert, of the bolo built from the data. The result resolves to the envelope mirroring the insert, unless the insert itself threw synchronously |
| `BoloService.CreateBoloIgnoresValidityAndAttachments` | src/core/service/bolo-service.js:37-42 | the result is the same whatever the validity predicate and whatever the attachments |
| `BoloService.CreateBoloInsertsInvalid` | src/core/service/bolo-service.js:37-39 | invalid bolo data still reaches the repository's insert |
| `BoloService.CreateBoloGated` | src/core/service/bolo-service.js:37-39 | with the rejection returned, invalid data rejects with `invalid bolo data`, makes no call and leaves the state unchanged; valid data behaves as before |
| `BoloService.CreateBoloGatedInsertsOnlyValid` | src/core/service/bolo-service.js:37-39 | every call the gated version makes is an insert of a valid bolo |
| `BoloService.UpdateBolo` | src/core/service/bolo-service.js:51-63 | Invalid data throws `invalid bolo data` with no call and the state unchanged. Otherwise there is exactly one update, and the result resolves to the envelope mirroring it |
| `BoloService.WritesNeverReject` | src/core/service/bolo-service.js:34-63 | neither `createBolo` nor `updateBolo` ever returns a rejected promise |
| `BoloService.GetBolos` | src/core/service/bolo-service.js:68-71 | the repository's `getBolos` result, unchanged |
| `BoloService.GetBolo` | src/core/service/bolo-service.js:73-76 | the repository's `getBolo` result, unchanged |
| `BoloService.RemoveBolo` | src/core/service/bolo-service.js:78-80 | the repository's `delete` result, unchanged |
| `Deployment.ResetPasswordAsWrittenNeverSaves` | src/core/service/user-service.js:114-126 | over the adapter as written, every reset rejects with `Error saving password to repository: ` and the database is untouched |
| `Deployment.GetUsersAsWrittenThrows` | src/core/service/user-service.js:110-112 | over the adapter as written, `getUsers` throws a `TypeError` before any request |
| `Deployment.ResetPasswordChangesOnlyPassword` | src/core/service/user-service.js:117-119 | with `update` in place, resetting a stored user's password succeeds. The user then reads back with the new password (`null` for `undefined`) and every other field as before, and no other document changes |
| `Deployment.RegisterFreshInserts` | src/core/service/user-service.js:91-106 | registering a valid user under an unused username over the Cloudant adapter is one lookup followed by the adapter's insert, whose result it returns |
| `Deployment.RegisterThenRegisterAgain` | src/core/service/user-service.js:99-106 | a fresh username registers and gets the assigned id. A second registration under the same name rejects with `User already registered: <name>`, inserts nothing and changes nothing |
| `Deployment.LoginAfterInsert` | src/core/service/user-service.js:36-47 | right after a user with an unused username is inserted, login by that name returns the stored user exactly when the password matches, otherwise `null` |
| `Deployment.StrangerAfterInsert` | src/core/service/user-service.js:36-47 | inserting a user does not make any other username known: login under it still gives `null` |
| `Deployment.AuthenticateAfterRegister` | src/core/service/user-service.js:36-47 | after registering, login returns the registered user as stored exactly when the password matches, otherwise `null`; an unknown name gives `null` |
| `Deployment.RemoveUserFalsyIdTouchesNothing` | src/core/adapters/persistence/cloudant-user-repository.js:78-82 | `removeUser` with a null, undefined or empty id throws `id cannot be null or undefined` and the database is exactly as before |

## Findings

| source | as written | input that shows it | evidently intended | confidence | as-written member | corrected member |
|---|---|---|---|---|---|---|
| src/core/service/bolo-service.js:37-39 | the rejected promise built for invalid data is discarded, so the insert runs anyway | any bolo data the entity judges invalid | return the rejection, so invalid data is never inserted | high; not executed | `BoloService.CreateBoloInsertsInvalid` | `BoloService.CreateBoloGatedInsertsOnlyValid` |
| src/core/service/user-service.js:119 | `resetPassword` calls `userRepository.update`, but the Cloudant user adapter defines no `update`, so every reset rejects | `resetPassword(<id of a stored user>, "pw")` with the Cloudant user adapter | the adapter writes the user back under its current revision | medium; not executed | `Deployment.ResetPasswordAsWrittenNeverSaves` | `Deployment.ResetPasswordChangesOnlyPassword` |

## Left out

- `getRoleNames`/`getRole` (src/core/service/user-service.js:67-82): these convert case with lodash over `User.roleNames()`. The domain module is not part of this model.
- The domain entities (`src/core/domain/user.js`, `bolo.js`) are not part of this model. Their constructors are assumed to copy the recognised keys and default missing ones to `null`. The key sets `{id, username, password, role}` for users and `{id, name, category, summary, dateCreated}` for bolos are assumed; profile fields and physical descriptors are not listed. `isValid` is an uninterpreted predicate.
- The promise wrapper `db` around the Cloudant client, and the `cloudant.db.use` handle: these are replaced by the `DocStore` map model.
- The design document behind `users/by_username` is not in the source. It is assumed to emit `username` for documents tagged `Type: "user"`. Rows with equal keys are ordered by plain character-code order of ids, not CouchDB collation.
- The server's UUID generator is replaced by `Uuid(next)`. An id collision answers as a conflict.
- Asynchrony, scheduling, and the read-then-insert race in `registerUser`: every port call is one atomic step.
- The Cloudant bolo repository is not part of this model. The bolo port is arbitrary, so every bolo write may succeed or fail, and attachment preservation across updates is not modelled.
- `UserService.Authenticate`: the stored password is compared with strict equality against the supplied string. JavaScript's loose `==` coercion (a stored number matching its decimal string) is not modelled.
- `UserService.ResetPassword`: entities are values, so `user.data.password = password` (src/core/service/user-service.js:118) changes only the copy that is written back. A port whose `getById` hands out its stored object, as a test double can, would see the new password stored even when `update` then fails. That in-place write is not modelled; the Cloudant adapter builds a fresh `User` on every read, so the `Deployment` lemmas are unaffected.
- `CloudantUserRepository.GetById`: the id is a string. `deserializeId(null)` and `resetPassword(undefined, …)` pass a `null`/`undefined` id straight to `db.get` (src/core/service/user-service.js:57, :117). That case is not modelled, because the client's handling of a missing document name for `get` is not visible in the source.
- `CloudantUserRepository.Remove`: the id is `null`/`undefined` (`None`) or a string. Numeric and boolean ids are not modelled.
- `BoloService.CreateBolo`: the unhandled rejection left behind by the discarded `Promise.reject` is not modelled.
- Rejections whose reason is not an `Error` (so `error.message` would be `undefined` in the envelope) are not modelled.
- Field values that are objects or arrays (such as bolo attachments), non-integer numbers, and `NaN` are not modelled: `Num` holds integers only.
- `getUsers` over the Cloudant adapter throws, because the adapter has no `getAll`. No corrected listing is offered, because the source has no listing view.
- The express application, password validation, and the PHP search page are outside this layer.
