# Activity registry: a Dafny model of the request table and its handlers

The system is a small approval backend. Students submit an activity claim with
an attached document (JPEG, PNG or PDF). An administrator logs in with a shared
password, lists pending and approved claims newest first, and approves,
rejects or deletes them. All state lives in one table, `activity_requests`.

The model has three modules:

- `database.dfy` (module `Database`) models the stored row `ActivityRequest`.
  It also gives the column defaults applied at insertion (`Materialize`) and the
  table, a `map` from primary key to row, with its invariant `Valid`: each row
  sits under its own id and has one of the three statuses. The module defines
  the key the engine assigns to a new row (`NextId`) and the two commits the
  handlers make: a status assignment (`SetStatus`) and a deletion (`Remove`).
- `listing.dfy` (module `Listing`) models the two admin queries. Both are pure
  functions of the table: filter by status, then order by `created_at`
  descending.
- `api.dfy` (module `Api`) models login as a pure function. Create, update
  and delete are methods of the class `ActivityRegistry`, which owns the table
  and changes it in place. A handler returns `Ok(result)` or
  `Error(http_status)`.

Other modelling choices:

- The database is abstracted as the table. A commit is an atomic update of
  the table, and a rollback leaves it unchanged.
- The clock is a natural-number timestamp supplied by the caller.
- Stored file content is `Base64Of(bytes)`. The encoding is kept opaque, so
  reading the content back gives exactly the uploaded bytes.
- `id` is an SQLite `INTEGER PRIMARY KEY`, which is an alias of the rowid. A
  new row therefore gets one more than the largest id present, or 1 in an
  empty table. There is no `AUTOINCREMENT`, so after the newest row is deleted
  the next submission can receive its id again (`DeletedNewestIdIsReissued`).
  A 404 for a deleted id lasts only until that happens.
- The create handler's content-type check raises a 400 inside its `try` block.
  The block's catch-all (`except Exception`) catches that error, rolls back and
  raises a 500. The model follows the code: a disallowed or missing content
  type answers 500, not 400, and the table is unchanged.
- The status update does not check the current status. Any existing row can be
  set to `approved` or `rejected`, including approved → rejected. The model
  follows the code here too. It proves that no update can put a row back into
  `pending`.
- The `group_name` and `supervisor` columns have no default in the table. The
  create handler's form fields default to `""`, so every row it creates holds a
  string there.

## Model

| member | source | states |
|---|---|---|
| `Database.Materialize` | server/database.py:26-38 | The inserted row carries the given id and every given column. A row inserted without a status gets `"pending"`. A row inserted without `created_at` gets the insertion time. |
| `Database.NextId` | server/database.py:29 | The id for a new row is not in the table and is greater than every id present. It is 1 for an empty table. Otherwise it is one more than an id that is present, i.e. max + 1. |
| `Database.SetStatus` | server/main.py:174-175 | The committed status assignment changes only the status of that one row. Its other columns, including `created_at`, stay the same, as do all other rows and the key set. A known status keeps the table invariant. |
| `Database.Remove` | server/main.py:189-190 | The committed deletion removes exactly that key. Every other row is unchanged, and the table invariant is kept. |
| `Database.DeletedNewestIdIsReissued` | server/database.py:29 | Suppose the row with the largest id is deleted while the id just below it is still present. Then the next inserted row receives the deleted id. |
| `Listing.SortNewestFirst` | server/main.py:116 | The ordering step returns a permutation of its input (same multiset) in non-increasing `created_at` order. |
| `Listing.ListByStatus` | server/main.py:114-116 | The query returns each row of the table whose status equals the argument and no other row. Each row appears once, newest first. |
| `Listing.GetPendingRequests` | server/main.py:111-132 | A stored row is listed if and only if its status is `"pending"`. Every listed row is the stored row under its id. The list is newest first with no repeats. |
| `Listing.GetApprovedRequests` | server/main.py:134-155 | A stored row is listed if and only if its status is `"approved"`. Every listed row is the stored row under its id. The list is newest first with no repeats. |
| `Listing.RejectedIsListedNowhere` | server/main.py:114-139 | A row with status `"rejected"` appears in neither admin list. |
| `Listing.NewerPendingListedFirst` | server/main.py:114-116 | Of two pending rows, the one created later is listed before the other. |
| `Listing.TwoPendingListedNewestFirst` | server/main.py:114-116 | When exactly A and a later B are pending, the pending list is `[B, A]`. |
| `Listing.ApprovalMovesRequest` | server/main.py:171-175 | Approving a pending row takes it out of the pending list and puts it in the approved list. Every other row stays in the lists it was in. |
| `Listing.UpdateNeverAddsPending` | server/main.py:171-174 | A successful status update never adds a row to the pending list, so no row is ever sent back to `"pending"`. |
| `Listing.RemovedRequestIsListedNowhere` | server/main.py:189-190 | After a deletion, no listed row has the deleted id. |
| `Api.AdminLogin` | server/main.py:103-109 | Login succeeds (`success = true`) if and only if the password equals `"1234"`. Otherwise it fails with 401. |
| `Api.ActivityRegistry.constructor` | server/database.py:41-43 | A freshly initialised store has an empty table that satisfies the invariant. |
| `Api.ActivityRegistry.CreateRequest` | server/main.py:57-101 | It succeeds if and only if the content type is present and one of `image/jpeg`, `image/png`, `application/pdf`. On failure it returns 500 and the table is unchanged. On success it adds exactly one row under a fresh id (max + 1), which it returns. That row is `"pending"` and holds the given name, group, supervisor and activity, the upload's filename and content type, and the encoded bytes; its `created_at` is the current time. All existing rows are unchanged and the invariant is kept. |
| `Api.ActivityRegistry.UpdateRequestStatus` | server/main.py:157-177 | A missing id gives 404 whatever the status, and nothing changes. An existing id with a status other than `"approved"` or `"rejected"` gives 400, and nothing changes. Otherwise the call succeeds and commits `SetStatus`, whatever the previous status was. No `created_at` changes. |
| `Api.ActivityRegistry.DeleteRequest` | server/main.py:179-192 | It succeeds if and only if the id exists, and then commits `Remove`, so the id is gone. A missing id gives 404 and the table is unchanged. |
| `Api.DeletedRequestIsNotFound` | server/main.py:164-191 | After a delete of an id, an update of that id and a second delete of it both answer 404. |
| `Api.SubmitAndApprove` | server/main.py:57-175 | Two valid submissions A, then B, go into an empty store. Approving A leaves exactly `[B]` pending and lists exactly `[A]` as approved. |

## Left out

- HTTP routing, form, file and JSON parsing, dependency injection, pydantic models, CORS and the server entry point (server/main.py:1-47, 194-196). If a required form field or file is missing, the framework rejects the request before the handler runs. The model's handlers receive every field.
- The root endpoint `read_root` (server/main.py:52-55): it returns a constant message and touches no state.
- The session lifecycle: engine, session factory, `get_db` and `create_all` (server/database.py:9-23, 41-52). Commit is an atomic table update and rollback leaves the table unchanged. A commit that fails inside the engine (a disk error, a constraint the engine enforces) is not modelled. The create handler would turn such a failure into a 500 too.
- Reading the upload and base64 encoding (server/main.py:77-78). The stored value is the opaque `Base64Of(bytes)`; correctness of the encoder is the library's promise.
- `datetime.utcnow` and the ISO-8601 rendering of `created_at` (server/database.py:38, server/main.py:129, 152). Time is a caller-supplied `nat`. The lists return the stored rows themselves rather than the JSON dictionaries built from them.
- Response message strings. Errors are modelled by their HTTP status code only.
- Concurrent requests and the engine's own locking: the model is sequential.
- Width of the id: SQLite's rowid is a 64-bit integer. When the largest rowid is already at its maximum, SQLite picks a random unused one; the model's ids are unbounded and always max + 1.
- Tie order in `ORDER BY created_at DESC`: SQL leaves the order of equal timestamps unspecified. The model fixes one order and states nothing about it.
