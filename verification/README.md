# Multi-tenant organisation service — a Dafny model

This project models the core of a FastAPI/MongoDB service where each
organisation gets:

- an admin account;
- a metadata record in a master database;
- a collection of its own, whose name is derived from the organisation name.

The model covers five parts:

- **Name normaliser.** `get_org_collection_name` (module `Database`, with the
  Python string operations it uses in `Text`).
- **Directory.** The master database's `admins` and `organizations` tables
  and the tenant collections, held in one immutable `Store` value (modules
  `Tables`, `Directory`, `ObjectIds`). Tables are sequences in insertion order;
  `find_one`, `update_one` and `delete_one` act on the first matching row.
- **Organisation service.** `create_organization`, `get_organization_by_name`,
  `update_organization` and `delete_organization` as pure transitions. Each
  returns the store as its writes leave it, plus the view or the exception it
  ends with (module `OrgService`).
- **Authentication.** `AuthService.admin_login` (module `AuthService`) and the
  `get_current_admin` gate (module `Deps`).
- **Request handling.** The request bodies `OrgCreate` and `OrgUpdate` (module
  `OrgModel`) and the four organisation routes (module `OrgRoutes`).

Three modules prove properties across the whole model:

- `Workflows` proves that every workflow preserves the directory invariant
  `WellFormed`. The invariant has three parts:
  - fresh, distinct ids;
  - unique emails, names and owners;
  - every organisation trimmed, named after its derived collection, and
    mirrored by its admin.
- `Scenarios` proves what one request lets the next one observe.
- `Wrappers` holds `Option` and `Result`.

The model follows the code as written, including two quirks:

- **Email check after the rename.** `update_organization` checks the new
  email only after it has copied and dropped the collection. An email
  conflict therefore answers 400 with the old collection gone while both
  records still name it.
- **Trimmed 404, raw 403.** The update route's 404 lookup trims the path
  name, but its ownership query does not. A padded path name is refused
  with 403, even when the caller owns the organisation.

Two more consequences of the code as written are stated rather than
corrected:

- **Rename onto the same collection.** A rename whose new name has the same
  collection name copies the collection onto itself and then drops it
  (`RenameOntoSameCollectionDropsData`). A change of letter case alone is
  such a rename (`CaseOnlyRenameKeepsCollection`).
- **Normaliser not idempotent.** Only its suffix step is; applying the whole
  function twice stacks the prefix (`CollectionNameStacksPrefix`).

The route logic has two more details the modelled code produces:

- **Unparsable caller id on update.** In `update_org`, `ObjectId(...)` on the
  caller's id runs outside the `try`. A malformed id would escape as an
  unhandled exception, which the framework answers with a bare 500
  "Internal Server Error".
- **Unparsable caller id on delete.** `delete_org` converts the id inside its
  `try`, so the same failure becomes "Failed to delete organization: …".

## Model

| member | source | states |
|---|---|---|
| Database.OrgCollectionName | app/database.py:17-46 | The collection name always starts with `org_` and has a non-empty suffix after it. |
| Database.Suffix | app/database.py:34-44 | The suffix holds only `[a-z0-9_]`, has no `_` at either end, never has two `_` in a row, and is never empty. |
| Database.SuffixKeepsAlphanumerics | app/database.py:34-44 | Removing the underscores from the suffix gives exactly the `[a-z0-9]` characters of the lower-cased name, in order. A name with none of them gives exactly `default`. |
| Database.CollectionNameIgnoresCaseAndPadding | app/database.py:34 | ASCII case and surrounding whitespace do not change the collection name: f(lower(s)) = f(strip(s)) = f(s). |
| Database.SuffixIdempotent | app/database.py:34-44 | The suffix transformation is idempotent. |
| Database.WellFormedSuffixFixed | app/database.py:34-44 | A string already of the suffix shape is its own suffix. |
| Database.CollectionNameStacksPrefix | app/database.py:46 | The whole function is not idempotent: applying it twice gives `org_org_` followed by the suffix, which differs from one application. |
| Database.CollectionNameNotInjective | app/database.py:37 | "Acme Corp" and "acme-corp" share one collection name. |
| Database.AcmeCorpCollection | app/database.py:34-46 | "Acme Corp" maps to `org_acme_corp`. |
| Database.EmptyNameCollection | app/database.py:43-46 | The empty name maps to `org_default`. |
| ObjectIds.ParseFormat | app/routes/deps.py:51-61 | The string form of an ObjectId parses back to the same ObjectId. |
| ObjectIds.FormatParse | app/routes/deps.py:51-61 | Every string `ObjectId(...)` accepts names an ObjectId whose string form is the same digits in lower case. |
| OrgModel.ValidateCreate | app/models/org_model.py:9-21 | Accepted exactly when the raw name is 1 to 100 characters and not blank, and the password is at least 6. The accepted name is trimmed and the other fields are kept. A rejection names the name field exactly when the name fails. |
| OrgModel.ValidateUpdate | app/models/org_model.py:24-28 | Every field is optional. Accepted exactly when any given name is 1 to 100 characters and any given password is at least 6. Nothing is trimmed. |
| OrgService.Create | app/services/org_service.py:12-103 | A taken trimmed name gives 400 with the store unchanged. A taken email gives 400 with the store unchanged. Otherwise exactly one admin and one organisation are appended under fresh ids and linked by `admin_id`, both carrying the trimmed name and its collection name. The new collection exists and keeps its documents, no other collection changes, and the view holds no password or hash. |
| OrgService.Get | app/services/org_service.py:106-131 | Returns None exactly when no organisation has the trimmed name. Otherwise returns the view of an organisation with that name. It only reads. |
| OrgService.Delete | app/services/org_service.py:267-324 | An unknown name gives 404 and another requester gives 403, both with the store unchanged. The owner's delete drops the collection, removes the organisation and its admin, and leaves every other collection and the id counter alone. |
| OrgService.Update | app/services/org_service.py:134-191 | An unknown name gives 404 with no change. A rename to a taken name gives 400 before any copy. The id counter never goes back. |
| OrgService.RenameTo | app/services/org_service.py:179-180 | A rename happens exactly when the new name is non-empty and differs from the old one once both are trimmed. The stored name is then already trimmed: trimming it again changes nothing, so a renamed record keeps a normalised name. |
| OrgService.UpdateMovesCollection | app/services/org_service.py:178-208 | Without a rename the collections are untouched. With a rename the old collection is dropped. Any distinct target then holds its old documents followed by a copy of every old document under a fresh id. Every other collection is kept. |
| OrgService.UpdateEmailConflict | app/services/org_service.py:198-221 | An email held by another admin gives 400 after the collection move. On a rename the old collection is already dropped, while both records are unchanged and so still name it. |
| OrgService.UpdateWritesRecords | app/services/org_service.py:224-264 | A passing update rewrites only the found organisation row and its admin's row: new name and collection, new email, and new hash where requested. Owner, ids and creation times are kept, and the returned view is the written record. |
| OrgService.TouchCollection | app/services/org_service.py:77-83 | Inserting the placeholder and deleting the first `_dummy` document leaves the collection existing, its size unchanged, and its contents unchanged when it held no `_dummy` document. |
| OrgService.MoveCollection | app/services/org_service.py:193-204 | The source is dropped after every one of its documents has been copied, under fresh ids, behind the target's own documents. |
| AuthService.Login | app/services/auth_service.py:12-55 | An unknown email and a wrong password fail with the same 401 detail. Success happens exactly when the first admin holding the email has a hash that the password verifies against, and returns that admin's id string and public fields. |
| AuthService.LoginUniqueEmails | app/services/auth_service.py:33-55 | With unique emails, login succeeds exactly when the password verifies against the hash of the admin holding the email. |
| Deps.GetCurrentAdmin | app/routes/deps.py:14-81 | Every failure is a 401 or 503 with the Bearer challenge. Missing credentials give "Not authenticated", and a decode failure gives its own message. The caught 401s (missing or null claim, unusable id, unknown admin, failing query) all carry "Could not validate credentials". The answer is 503, with "Database not available: " and the reason, exactly when the database is missing after a present claim. Success happens exactly when the claim is a well-formed id naming a stored admin, and returns that admin with the lower-case id string. |
| OrgRoutes.Guard | app/routes/org_routes.py:36-42 | HTTP errors pass through unchanged. Any other exception becomes a 500 carrying its message. The store is as the service left it. |
| OrgRoutes.CreateOrg | app/routes/org_routes.py:19-42 | An invalid body gives 422 with no write. Otherwise the create service runs on the trimmed name; a success is answered 201 with the view and a service error is passed on. |
| OrgRoutes.GetOrg | app/routes/org_routes.py:45-60 | 404 naming the path as given exactly when no organisation in the store has the trimmed name. Otherwise 200 with the service's view. |
| OrgRoutes.GetOrgFirstMatch | app/routes/org_routes.py:52-60 | A 200 describes the first organisation in the store whose name is the trimmed path. |
| OrgRoutes.UpdateOrg | app/routes/org_routes.py:63-114 | The gate's error is the answer. Then an invalid body gives 422 and an unknown trimmed name 404. A caller id that is not an ObjectId then gives a bare 500 "Internal Server Error", because it is parsed before the `try`. A caller who owns no organisation named exactly the raw path gets 403. None of these writes. Only then does the service run, with its HTTP errors passed on. The store changes only when every check has passed. |
| ObjectIds.Repr | app/routes/org_routes.py:133-141 | The `%r` rendering of a malformed caller id inside the `InvalidId` message that the delete route's 500 carries: quoted at both ends, with double quotes exactly when the text holds a single quote and no double quote. Text that needs no escape appears unchanged between the quotes. |
| ObjectIds.ReprPicksQuotes | app/routes/org_routes.py:133-141 | `abc` renders as `'abc'`, and `it's` renders as `"it's"`. |
| OrgRoutes.DeleteOrg | app/routes/org_routes.py:117-142 | The gate's error is the answer. A caller id that is not an ObjectId gives 500 "Failed to delete organization: " followed by the `InvalidId` message. Otherwise the ownership decision and every error come from the delete service, and a success is answered 200 with its message. |
| Workflows.CreateKeepsWellFormed | app/services/org_service.py:40-95 | Create preserves the directory invariant. |
| Workflows.UpdateKeepsWellFormed | app/services/org_service.py:164-252 | Update preserves the directory invariant, including when it fails on an email conflict. |
| Workflows.DeleteKeepsWellFormed | app/services/org_service.py:293-320 | Delete preserves the directory invariant. |
| Scenarios.CreateThenGet | app/services/org_service.py:86-131 | After a successful create, looking up the name returns exactly the view create returned. |
| Scenarios.CreateOrgThenGetOrg | app/routes/org_routes.py:19-60 | After `POST /` answers 201, `GET /{name}` on the same raw name answers 200 with the body the create returned. |
| Scenarios.CreateThenLogin | app/services/org_service.py:62-75 | The created admin can log in exactly when `verify` accepts the attempt against `hash(password)`, and the login describes that admin. |
| Scenarios.LoginThenGate | app/routes/deps.py:50-62 | A token whose `admin_id` is the id string a login returned passes the gate and resolves to the same admin. |
| Scenarios.RenameThenGet | app/services/org_service.py:178-264 | After a rename the old name is unknown, and the new name answers with the returned view, whose collection derives from the new name. |
| Scenarios.RenameMovesDocuments | app/services/org_service.py:193-204 | After a rename the old collection is gone, and a distinct new one holds the sum of the document counts. |
| Scenarios.DeleteThenGet | app/services/org_service.py:292-320 | After the owner deletes an organisation, its name is unknown. |
| Scenarios.DeleteThenGateRejects | app/services/org_service.py:319-320 | After a delete, a token naming the deleted admin is refused with 401 "Could not validate credentials". |
| Scenarios.UpdateRaisesOnlyHttp | app/services/org_service.py:164-264 | In the model, where store calls and hashing cannot fail, update only ever fails with a 404 or a 400: the closing read-back always finds the organisation. |
| Scenarios.UpdateRouteServerErrors | app/routes/org_routes.py:88-114 | In the model, where store calls and hashing cannot fail, the update route never answers its "Failed to update organization" 500: the only 500 is the bare one from a caller id that is not an ObjectId. |
| Scenarios.PaddedPathForbidden | app/routes/org_routes.py:80-97 | A valid update of an existing organisation, addressed by a path name with surrounding whitespace, is refused with 403 whoever the caller is. |
| Scenarios.RenameOntoSameCollectionDropsData | app/services/org_service.py:179-208 | A rename whose new trimmed name has the organisation's current collection name succeeds. Yet the drop after the copy removes the collection that the record still names. |
| Scenarios.CaseOnlyRenameKeepsCollection | app/database.py:34 | In a well-formed directory, a new name that differs from the old only in ASCII letter case has the organisation's current collection name. |
| Scenarios.BlankRename | app/models/org_model.py:26 | A whitespace-only new name passes the update body's rules, though the create body rejects it, and renames the organisation to the empty name, whose collection is `org_default`. |

## Left out

- **I/O and database drivers.** I/O, the Motor driver and `async` scheduling
  are not modelled. Each workflow is one sequential step, so races between
  requests are outside the model.
- **Failing store calls.** In the services every store operation (`find_one`,
  `insert_one`, `update_one`, `delete_one`, `drop_collection`, the copy loop)
  and `hash_password` are total: they never raise. Only the gate's query can
  fail. So a failure halfway through a workflow is not modelled: neither the
  partial writes it leaves (an admin inserted without its organisation, a
  half-copied collection) nor the "Failed to create/update/delete
  organization" 500 that the route's handler makes of it.
- **Connection lifecycle.** `connect_db`/`close_db` (app/database.py:49-82) and
  the module-level `master_db` handle are not modelled. The store is an explicit
  parameter. As written the application fails at import and no route answers
  at all: app/main.py:8 imports the organisation routes, app/routes/org_routes.py:13
  imports app/routes/deps.py, and app/routes/deps.py:6 imports `get_master_db`,
  which app/database.py does not define (see the next line). Were that import
  fixed, app/routes/org_routes.py:5 and app/services/org_service.py:5 would
  still copy `master_db` at import time, while it is `None`
  (app/database.py:14), because `connect_db` rebinds only the name in
  `app.database` (app/database.py:59-65). Every organisation route would then
  hand `None` to the service: create would answer 500 "Failed to create
  organization: 'NoneType' object has no attribute 'organizations'", get and
  update would escape as a bare 500, and delete would answer the prefixed 500.
  The model instead gives the routes the connected store, which is the evident
  intent and what tests/test_org_flow.py:47 expects.
- **`get_master_db`.** app/routes/deps.py:6 and app/routes/auth_routes.py:5
  import it from app/database.py, which does not define it, so as written those
  modules fail at import. The model follows the evident intent: an accessor for
  the connected database. It appears only
  through the outcomes the gate can observe: a store, the missing-connection
  `RuntimeError`, or a query that raises.
- **Password hashing.** `hash_password` and `verify_password` (app/utils/hash.py,
  not part of this model) are function parameters. They are total functions,
  so hashing never raises (see "Failing store calls"). Nothing else is assumed
  about them, and salting is not modelled.
- **JWT.** app/utils/jwt_handler.py is reduced to the decode outcome: the
  `admin_id` claim, expired, or malformed. Signing, token creation and `exp`
  arithmetic are left out, and so is the login route that issues tokens
  (app/routes/auth_routes.py).
- **Fresh values.** ObjectId generation is a counter (`Store.nextId`).
  `datetime.utcnow()` values are opaque parameters; the dummy document's own
  timestamp is not kept.
- **`ObjectIds.ParseFormat`**: ids are unbounded naturals. Ids at or above
  16^24 (no twelve-byte ObjectId) have no faithful string form, so the round
  trip requires `id < IdSpace`. The bytes-argument form of `ObjectId(...)` is
  not modelled.
- **`Text.Lower`**: covers ASCII letters only. Python's full Unicode
  `str.lower()` can map a few non-ASCII letters into `[a-z]` (the Kelvin sign,
  dotted capital I). For such names the model's collection name can differ.
- **Email validation.** Pydantic's `EmailStr` is left out: emails are plain
  strings. Lengths are counted in code points.
- **Framework glue.** app/main.py, app/config.py, app/models/admin_model.py and
  the `OrgOut` response conversion are left out. The conversion can only fail
  on a malformed record, which the directory invariant excludes.
- **Order of gate and body validation.** The framework's order between the
  authentication dependency and body validation is taken to be gate first.
- **`OrgService.MoveCollection`**: models the copy as reading a snapshot of the
  source. When the source and target are the same collection, the live
  cursor's behaviour is not modelled: every pass inserts into the collection
  being scanned, so past the first batch the loop need not end. If the copy
  loop ends, the drop that follows removes the collection, which is what
  `Scenarios.RenameOntoSameCollectionDropsData` states.
- **`OrgService.Update`**: its contract states only the early exits. What
  happens after them is stated by `OrgService.UpdateMovesCollection`,
  `OrgService.UpdateEmailConflict` and `OrgService.UpdateWritesRecords`.
- **`ObjectIds.Repr`**: characters above U+00FF are written unchanged, although
  Python's `repr` escapes those that the Unicode database marks as
  non-printable (`repr` writes U+2028 as `\u2028`; the model keeps the
  character). Below U+0100 the escaping matches `repr`.
- **`OrgRoutes.DeleteOrg`**: the `InvalidId` message renders the caller id with
  `ObjectIds.Repr`. It escapes the quote, backslashes and the non-printable
  Latin-1 characters as `repr` does. Characters above U+00FF are written
  unchanged, although `repr` escapes those that the Unicode database marks as
  non-printable. Only a gate result `get_current_admin` never produces can
  reach this branch.
