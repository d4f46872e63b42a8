# A verified model of the FastAPI user/prompt service's repository and handlers

The service stores users and prompts in two SQL tables behind a small
FastAPI app. Requests pass through three layers:

- **Handlers** check preconditions: a 404 for an absent id, and a 400 when a
  username or email is already taken.
- **Repository objects** (`CRUDBase`, `CRUDUser`, `CRUDPrompt`) read and
  write the tables through a SQLAlchemy session.
- **Pydantic schemas** validate request bodies. Path and query parameters
  carry their own bounds.

This project models that core in Dafny. It replaces the database with an
explicit in-memory table.

- **Records** (`Common.Row`) are attribute dictionaries: a record's
  `__dict__`, as the ORM holds it. Column values are text, integers,
  booleans or NULL.
- **A table** (`Crud.Table`) is an object holding its records in storage
  order, plus the next auto-increment id. Its invariant `Valid()` says every
  record has a distinct integer id, and every id is below the next one.
- **Repository queries** (`get`, `get_multi`, `get_by_username`,
  `get_by_email`, `get_multi_by_owner`) are functions of the records.
- **Repository writes** (`create`, `update`, `remove`, `create_with_owner`)
  are methods that change the table. `CRUDBase.update` keeps its loop over
  the record's attributes. `CRUDUser.update` rewrites its update dictionary
  in place. Each method is proved against the functions `Overwrite`, `Put`
  and `Delete`, which describe the new record and the new table.
- **Handlers**: each handler's decision logic is a verdict function that
  either accepts or rejects with a status and a detail message. The handler
  method carries out the verdict with one repository call and returns a
  `Response`.
- **Table invariants** come from the column definitions:
  - the primary key;
  - usernames and emails unique across users;
  - column widths;
  - the prompt's owner foreign key.

  Lemmas show which operations keep each invariant. The create and delete
  handlers preserve uniqueness of usernames and emails. The update handler,
  modelled with its checks as written, preserves it for every request that
  does not set the email to the empty string (see "## Findings").
- **Request validation** becomes predicates and parse functions. A request
  that fails validation is answered with status 422, as FastAPI answers it.

Two points of the code are easy to misread; the model follows the code:

- Deleting a user does not delete that user's prompts. The foreign key at
  app/models/prompt.py:14 declares no `ondelete`. The relationship at
  app/models/prompt.py:21 names `back_populates="prompts"`, but `User`
  declares no `prompts` relationship, so nothing cascades. Provided the
  mappers configure, the foreign key makes the database refuse to delete a
  user who still owns prompts: the request fails with an uncaught error, a
  500, and the user survives. A `back_populates` that names a property
  `User` lacks can instead make SQLAlchemy's mapper configuration fail once
  `Prompt` is imported, and then every query fails. Whether it is imported
  depends on app/crud/__init__.py and app/models/__init__.py, which are not
  part of this model. The model leaves database refusals out, so it shows the key
  breaking instead (`PromptModel.DeleteOwnerOrphans`).
- The update schema for prompts has no `prompt` field: the comment at
  app/schemas/prompt.py:26 calls prompts immutable. So no request can change
  a prompt's text, although the comment at app/crud/prompt.py:63 says the
  generic update could update it.

## Model

| member | source | states |
|---|---|---|
| Crud.UniqueIds | app/models/user.py:12 | the primary key `id` of a table: every record has an integer id and no two records share one (the same column is declared at app/models/prompt.py:11) |
| Crud.Table.Valid | app/models/prompt.py:11 | the table's invariant: the primary key holds, every stored id is at least 1, and every stored id is below the next auto-increment value `nextId`, which is at least 1 |
| Crud.First | app/crud/base.py:40 | `filter(key == v).first()` returns a stored record that matches, and returns nothing exactly when no record matches |
| Crud.Get | app/crud/base.py:29-40 | `get(id)` returns a stored record whose id is `id`, or none exactly when no record has that id |
| Crud.GetMulti | app/crud/base.py:42-54 | the page has at most `limit` records, is empty when `skip` is at or past the end, has exactly `min(limit, size - skip)` records otherwise, and its i-th record is the table's record at `skip + i` |
| Crud.Overwrite | app/crud/base.py:94-96 | the record after the `setattr` loop keeps exactly the record's attributes |
| Crud.Put | app/crud/base.py:98-101 | writing a record back keeps the table's length, and each position holds either its old record or the written one |
| Crud.GetUnique | app/crud/base.py:29-40 | when ids are unique, `get` on a stored id finds exactly that record |
| Crud.GetMultiAdjacent | app/crud/base.py:54 | two consecutive pages concatenate to the page spanning both: pagination neither skips nor repeats a record |
| Crud.GetMultiWhole | app/crud/base.py:54 | a page covering the whole table is the table; a page starting at its end is empty |
| Crud.PutKeepsIds | app/crud/base.py:98-101 | writing a record back keeps the table's length and every record's id |
| Crud.PutGet | app/crud/base.py:98-101 | after writing a record back, ids stay unique, `get` on its id finds the new version, and `get` on every other id finds what it found before |
| Crud.PutFrame | app/crud/base.py:94-101 | writing a record back changes no other record of the table |
| Crud.OverwriteFields | app/crud/base.py:88-96 | the update keeps the record's attribute set, overwrites every attribute present in the update data, and keeps every other value |
| Crud.OverwriteIgnoresForeignKeys | app/crud/base.py:94-96 | keys of the update data that are not attributes of the record have no effect |
| Crud.OverwriteEmptyAndIdempotent | app/crud/base.py:88-96 | an empty update changes nothing, and applying the same update twice equals applying it once |
| Crud.Delete | app/crud/base.py:114-117 | the table after a delete holds exactly the records whose id differs from the deleted id, and is no longer |
| Crud.DeleteAbsent | app/crud/base.py:114-118 | deleting an id that is not stored leaves the table unchanged |
| Crud.DeleteUnique | app/crud/base.py:114-117 | deleting keeps ids unique |
| Crud.DeleteCount | app/crud/base.py:114-117 | deleting a stored id removes exactly one record, and deleting an absent one removes none |
| Crud.RemoveIdempotent | app/crud/base.py:114-118 | after a remove, `get` of that id finds nothing and a second remove changes nothing |
| Crud.DeleteFrame | app/crud/base.py:114-118 | when ids are unique, a remove leaves `get` of every other id finding what it found before |
| Crud.Table.constructor | app/models/base.py:1-15 | a new table is empty, satisfies the invariant, and its first id is 1 |
| Crud.Table.Create | app/crud/base.py:56-72 | `create` appends exactly one record that carries every input field and the next id, keeps the invariant, and `get` on the new id returns that record |
| Crud.Table.Update | app/crud/base.py:88-101 | the attribute-by-attribute loop yields `Overwrite(dbObj, data)`, keeps its id, and the table becomes the old table with that one record replaced |
| Crud.Table.Remove | app/crud/base.py:103-118 | `remove` returns what `get` returned. On an absent id the table is unchanged. On an existing id exactly that record is gone and `get` finds nothing |
| UserModel.IsUserRow | app/models/user.py:12-17 | a `users` record has exactly the columns of `User`, each of its declared type and non-NULL (the timestamps are left out). `is_active` is nullable in the column; the model excludes NULL there (see "## Left out", `UserSchemas.UserUpdateDict` and `UserSchemas.ParseUserCreate`) |
| UserModel.UniqueUsers | app/models/user.py:13-14 | the `unique=True` constraints: no two users share a username or an email |
| UserModel.FitsColumns | app/models/user.py:13-16 | the `String(50)` and `String(100)` widths of `username`, `email` and `hashed_password` |
| UserModel.DeleteKeepsUniqueUsers | app/models/user.py:13-14 | deleting a user keeps usernames and emails unique |
| UserSchemas.ParseUserCreate | app/schemas/user.py:7-17 | a create body is valid exactly when the username has 3 to 50 characters and the password at least 8, with no bound on the email. The fields are copied, and `is_active` is true unless the body sets it false |
| UserSchemas.ValidUserUpdate | app/schemas/user.py:31-37 | every `UserUpdate` field is optional, and the username (3 to 50) and password (at least 8) bounds apply only when the field is set |
| UserSchemas.ToUserOut | app/schemas/user.py:46-51 | the `User` response model: id, username, email and `is_active`, without `hashed_password` |
| UserSchemas.UserUpdateDict | app/schemas/user.py:31-37 | `dict(exclude_unset=True)` holds exactly the set fields of a `UserUpdate`, with their values |
| UserCrud.HashPassword | app/crud/user.py:50 | the placeholder transform keeps the password as its prefix and adds seven characters |
| UserCrud.GetByUsername | app/crud/user.py:12-23 | returns a stored user with exactly that username, or none exactly when no user has it |
| UserCrud.GetByEmail | app/crud/user.py:25-36 | returns a stored user with exactly that email, or none exactly when no user has it |
| UserCrud.NewUserRow | app/crud/user.py:50-58 | the `User(...)` record `create` builds has every column of `User` except the key `id`, which the database assigns, and stores a transformed password rather than the plaintext |
| UserCrud.Create | app/crud/user.py:38-62 | appends one well-formed user with the next id. Username, email and `is_active` are copied verbatim, and `hashed_password` is the password followed by `_hashed`. No uniqueness check |
| UserCrud.RewritePassword | app/crud/user.py:84-88 | the rewritten data never holds `password`. A password becomes `hashed_password` (password followed by `_hashed`), overriding any `hashed_password` already present. Other keys are kept. Without a password the data is unchanged |
| UserCrud.Update | app/crud/user.py:64-90 | the stored user becomes `Overwrite(dbObj, RewritePassword(data))`, and the table changes only at that record |
| UserCrud.UpdatedUser | app/crud/user.py:78-90 | a validated update keeps a user well-formed and keeps its id. Each supplied field is overwritten, and a supplied password is stored transformed |
| UserCrud.HashedPasswordFits | app/crud/user.py:50 | the transformed password fits the 100-character column exactly when the password has at most 93 characters |
| UserCrud.LongPasswordOverflows | app/schemas/user.py:17 | a body that passes validation with a password of 94 characters or more yields a stored password wider than its column |
| UserCrud.LongEmailOverflows | app/schemas/user.py:10 | a body that passes validation with an email of more than 100 characters yields a stored email wider than its `String(100)` column: the schema sets no bound on the email |
| UserCrud.CreatedUserFits | app/models/user.py:13-16 | a schema-valid username, an email of at most 100 characters and a password of at most 93 give a record that fits every column |
| PromptSchemas.ValidPromptCreate | app/schemas/prompt.py:14-16 | a `PromptCreate` is valid when its one field, `prompt`, has at least 5 characters |
| PromptSchemas.ToPromptOut | app/schemas/prompt.py:39-42 | the `Prompt` response model: id, owner, prompt text and an optional response |
| PromptSchemas.PromptUpdateDict | app/schemas/prompt.py:27-29 | a prompt update's dictionary holds at most `response`, and holds it exactly when it was set, with text or NULL as its value |
| PromptSchemas.PromptUpdateKeepsText | app/schemas/prompt.py:27-29 | an update through `PromptUpdate` keeps a prompt's text, owner and id. Only `response` changes, and an empty body changes nothing |
| PromptModel.IsPromptRow | app/models/prompt.py:11-14 | a `prompts` record: integer id, non-NULL text, text or NULL response, non-NULL integer owner |
| PromptModel.OwnersExist | app/models/prompt.py:14 | the foreign key: every prompt's owner is a stored user |
| PromptModel.DeleteOwnerOrphans | app/models/prompt.py:14-21 | when the foreign key holds, deleting a user who owns a prompt breaks it: nothing cascades |
| PromptCrud.NewPromptRow | app/crud/prompt.py:28-33 | the record `create_with_owner` builds has every column of `Prompt` except the key `id`, and its `response` is NULL |
| PromptCrud.CreateWithOwner | app/crud/prompt.py:12-38 | appends exactly one prompt with the input's text, the given owner (not checked) and a NULL response, and leaves existing records unchanged |
| PromptCrud.OwnedBy | app/crud/prompt.py:57 | the owner filter keeps exactly the records whose `user_id` is that owner |
| PromptCrud.GetMultiByOwner | app/crud/prompt.py:40-61 | the page has at most `limit` stored records, all of that owner. It is empty when `skip` is at or past the owner's record count, has exactly `min(limit, count - skip)` records otherwise, and is the `skip`-offset slice of the owner's records |
| PromptCrud.OwnedByAppend | app/crud/prompt.py:57 | the owner filter keeps table order |
| PromptCrud.OwnerPages | app/crud/prompt.py:55-61 | consecutive pages of one owner tile that owner's records, and a page as wide as the table holds all of them |
| PromptCrud.CreateWithOwnerForeignKey | app/crud/prompt.py:33 | since the owner is not checked, a created prompt keeps the foreign key exactly when the owner is a stored user |
| Http.PageParams | app/api/v1/endpoints/users.py:20-21 | `skip` and `limit` default to 0 and 10, are accepted exactly when `skip >= 0` and `1 <= limit <= 100`, and are otherwise refused with 422 |
| Http.Lookup | app/api/v1/endpoints/users.py:67-74 | a path id below 1 is refused with 422. An id no record has is refused with 404. Otherwise the stored record with that id is found |
| UserEndpoints.ReadUsers | app/api/v1/endpoints/users.py:16-27 | 422 exactly on invalid paging. Otherwise 200 with at most `limit` users: none when `skip` is at or past the end, else exactly `min(limit, size - skip)`. The i-th is the table's user at `skip + i` |
| UserEndpoints.CreateUserVerdict | app/api/v1/endpoints/users.py:42-56 | 422 exactly on invalid input. A username clash gives 400 "The username is already taken", and takes precedence over an email clash. An email clash alone gives 400 "The email is already registered". The input is accepted exactly when it is valid and no user has its username or email, and the accepted value is the parsed input |
| UserEndpoints.CreateKeepsUnique | app/api/v1/endpoints/users.py:42-59 | an accepted create keeps usernames and emails unique |
| UserEndpoints.CreateTwiceRejected | app/api/v1/endpoints/users.py:43-48 | creating the same user again is refused with the username error |
| UserEndpoints.CreateUser | app/api/v1/endpoints/users.py:32-60 | a rejected create returns its error and changes nothing. An accepted one returns 201 with the new user, appends it and advances the next id by one. Uniqueness is preserved |
| UserEndpoints.ReadUser | app/api/v1/endpoints/users.py:62-75 | 422 for an id below 1. 404 exactly when no user has the id. Otherwise 200 with that user |
| UserEndpoints.Truthy | app/api/v1/endpoints/users.py:93-102 | Python truthiness of an optional string: false for an unset field and for `""` |
| UserEndpoints.Clash | app/api/v1/endpoints/users.py:93-108 | a supplied value that differs from the user's own and that some stored user already holds |
| UserEndpoints.UpdateUserVerdictAsWritten | app/api/v1/endpoints/users.py:88-108 | the handler's checks as written. 422 exactly on invalid input or id, and 404 exactly when the user is absent. 400 "The username is already taken" exactly when a truthy username differs from the user's own and is taken. 400 "The email is already registered" exactly when, with no such username clash, a truthy email differs and is taken. Accepted exactly otherwise, with the stored user |
| UserEndpoints.UpdateUserVerdict | app/api/v1/endpoints/users.py:88-108 | the intended checks. The same outcomes as the written ones, but every supplied username or email is checked, empty or not. Each 400 is stated in both directions. Accepted exactly when neither supplied value clashes, and then a changed username or email is held by no user |
| UserEndpoints.UpdateOwnValuesAccepted | app/api/v1/endpoints/users.py:93-102 | re-submitting one's own username and email is accepted, as written and as intended |
| UserEndpoints.UpdatedPairDistinct | app/api/v1/endpoints/users.py:93-111 | after an update accepted by the intended checks (`UpdateUserVerdict`), the updated user still differs from every other user in username and email |
| UserEndpoints.UpdateKeepsUnique | app/api/v1/endpoints/users.py:93-111 | an update accepted by the intended checks (`UpdateUserVerdict`) keeps the users well-formed and keeps usernames and emails unique |
| UserEndpoints.UpdateAsWrittenAdmitsDuplicateEmail | app/api/v1/endpoints/users.py:102-108 | under the checks as written, an update to the empty email is accepted while another user holds that email, so two users end up sharing it. The intended checks refuse it with 400 |
| UserEndpoints.AsWrittenAgreesUnlessEmptyEmail | app/api/v1/endpoints/users.py:93-108 | the written and the intended checks give the same verdict on every request that does not set the email to `""`: validation already rules out an empty username |
| UserEndpoints.UpdateUser | app/api/v1/endpoints/users.py:77-112 | runs the checks as written. A rejected update returns its error and changes nothing. An accepted one returns 200 with the updated user and replaces only that record. Uniqueness is preserved whenever the request does not set the email to `""` |
| UserEndpoints.DeleteUser | app/api/v1/endpoints/users.py:114-128 | 404 for an absent id with nothing changed. Otherwise 204, exactly that user is gone, and uniqueness is preserved |
| PromptEndpoints.ReadPrompts | app/api/v1/endpoints/prompts.py:37-59 | 422 exactly on invalid paging. Otherwise 200 with at most `limit` prompts of every owner: none when `skip` is at or past the end, else exactly `min(limit, size - skip)`. The i-th is the table's prompt at `skip + i` |
| PromptEndpoints.CreatePrompt | app/api/v1/endpoints/prompts.py:61-86 | 422 for text under 5 characters, with nothing changed. Otherwise 201 with a new prompt holding only the text and the payload's owner, with no response, appended with the next id, which advances by one |
| PromptEndpoints.ReadPrompt | app/api/v1/endpoints/prompts.py:88-104 | 422 for an id below 1. 404 exactly when no prompt has the id. Otherwise 200 with that prompt, whoever owns it |
| PromptEndpoints.UpdatePrompt | app/api/v1/endpoints/prompts.py:106-126 | 404 for an absent id with nothing changed. Otherwise 200, and only `response` may change: text and owner are kept |
| PromptEndpoints.DeletePrompt | app/api/v1/endpoints/prompts.py:128-147 | 404 for an absent id with nothing changed. Otherwise 204, and exactly that prompt is gone |
| InitDb.Seed | app/services/init_db.py:21-34 | the table after seeding keeps every stored user in place, gains at most one, and holds a user named "admin" |
| InitDb.InitDb | app/services/init_db.py:12-34 | when a user named "admin" exists nothing changes. Otherwise the admin user is appended. Either way a user named "admin" exists afterwards |
| InitDb.AdminInputValid | app/services/init_db.py:26-32 | the admin input passes `UserCreate` validation |
| InitDb.SeededAdmin | app/services/init_db.py:26-34 | seeding an empty-of-admin table adds exactly one user: "admin", "admin@example.com", active, with stored password "adminpassword_hashed" |
| InitDb.SeedIdempotent | app/services/init_db.py:19-34 | seeding twice leaves the table seeding once left |
| InitDb.SeedKeepsUnique | app/services/init_db.py:21-34 | seeding keeps usernames and emails unique when no user has the admin email |
| InitDb.SeedEmailClash | app/services/init_db.py:21-34 | a user holding the admin email under another username ends up sharing it with the seeded admin |

## Left out

- Database I/O, sessions, `commit`/`refresh`, connection set-up and configuration: the table is an in-memory object, and each repository call is one atomic step.
- Concurrency: two requests racing between a uniqueness check and the insert are not modelled. Every operation is sequential.
- Errors the database raises (a unique or foreign-key constraint violation, a column-width overflow), and FastAPI's translation of them into a 500: the model states when an invariant would break (`UserCrud.LongPasswordOverflows`, `UserCrud.LongEmailOverflows`, `InitDb.SeedEmailClash`, `PromptModel.DeleteOwnerOrphans`, `UserEndpoints.UpdateAsWrittenAdmitsDuplicateEmail`) instead of modelling the database's refusal.
- The `created_at` and `updated_at` timestamps: there is no clock in the model.
- Row order: without `order_by` the database's order is unspecified. The model uses storage order, and `.first()` promises only some matching record.
- `Crud.Table.Create`, `Crud.Table.Update`: an input that sets the primary key `id` is excluded by a precondition. No schema of the service has an `id` field.
- UserSchemas.UserUpdateDict: a `UserUpdate` field sent as an explicit JSON `null` is treated like an unset field. In the service it is set, so the update writes it:
  - `{"is_active": null}` stores NULL in the nullable `is_active` column (app/crud/base.py:96);
  - `{"password": null}` raises a `TypeError` at `None + "_hashed"` (app/crud/user.py:86), which surfaces as a 500;
  - `{"username": null}` or `{"email": null}` meets the non-null constraint of the column, a database refusal.

  None of these is modelled.
- UserSchemas.ParseUserCreate: an explicit `"is_active": null` on create is treated like an omitted field (true). In the service it reaches `create` as `None`, which may be stored as NULL. The column default of `is_active` is not modelled separately.
- Http.ValidationFailed: the body of FastAPI's 422 answer is reduced to one detail string. Type errors in a JSON body (a number where a string belongs) are outside the model: bodies arrive already typed.
- `CRUDBase.get_multi`'s own default `limit` of 100 is not modelled: every caller supplies `skip` and `limit`.
- The module app/crud/__init__.py is not part of this model. `delete_user` calls `crud.user.remove` (app/api/v1/endpoints/users.py:128); the model takes `crud.user` to be the singleton `CRUDUser(User)` of app/crud/user.py:93, whose `remove` is the base one.
- Routing: only the users router is mounted in app/api/v1/router.py, so the prompt endpoints model logic that this snapshot of the service does not serve.
- Dependency-injection helpers (`get_db`, `get_user_crud`, `get_prompt_crud`), the app object, CORS and the health endpoints: plumbing without logic.
- Password security: the placeholder transform is modelled as the literal `_hashed` suffix, and no cryptographic property is claimed.

## Findings

| source | as written | input that shows it | evidently intended | confidence | as-written member | corrected member |
|---|---|---|---|---|---|---|
| app/api/v1/endpoints/users.py:102-108 | the email clash check runs only when `user_in.email` is truthy, so an empty-string email is never checked | users 1 (email `""`) and 2 (email `"b@x.com"`); `PUT /users/2` with `{"email": ""}` passes the pre-check, which was meant to answer 400. The write then meets the `unique` constraint on `email` (app/models/user.py:14), and the database refuses it with an uncaught error, a 500. In the model, which leaves database refusals out, both users end up with email `""` | check every supplied email that differs from the current one (`is not None`) | not executed | UserEndpoints.UpdateUserVerdictAsWritten, UserEndpoints.UpdateAsWrittenAdmitsDuplicateEmail | UserEndpoints.UpdateUserVerdict, UserEndpoints.UpdateKeepsUnique |
