# User service model

A Dafny model of `UserService`, the request-to-query layer of a small
authentication API. The service answers seven requests (create, read by id,
update, soft delete, list, search, bulk insert) over one soft-deletable `User`
table, each with a `(code, message)` response.

The ORM table is replaced by an in-memory store:

- `UserStore` (`user_store.dfy`): the `User` row; the `Where` filter that a
  query hands to the store (equality on id, email and status, `name LIKE
  '%part%'`, a strict range on `updatedAt`); `Select` (`findAll`, in table
  order) and `FindOne` (its first hit); the `Patch` an `update` writes and
  `UpdateById`; and the class `UserTable`, which owns the rows and the
  autoincrement counter that hands out ids. Its invariant `Valid()` says that
  ids are distinct and below the counter.
- `UserService` (`user_service.dfy`): the seven operations. The ones that
  write (`CreateUser`, `UpdateUser`, `DeleteUser`, `BulkCreate`) are methods
  that modify the table. The read-only ones (`GetUserById`, `GetAllUsers`,
  `FindUsers`) are functions over it. The bulk insert is specified by the
  function `BulkInsert`, which processes the entries one `BulkStep` at a
  time. The method's loop is proved against it, and the counting properties
  are lemmas about it.

Collaborators the service cannot see become parameters:

- the password hasher `bcrypt.hash` is `hash: string -> string`, an opaque
  function;
- the store's clock is `now`, which the store writes into `updatedAt` on
  every create and update;
- whether the store throws inside the `try` of the bulk insert is
  `storeFails(k)` for entry `k`.

In two places the model follows the code as written:

- `updateUser` patches the row with that id whether or not it is active. The
  `update` call has no status condition.
- A second `deleteUser` on the same id writes again, and so refreshes
  `updatedAt`.

## Model

| member | source | states |
|---|---|---|
| `UserStore.Select` | services/UserService.js:144-146 | `findAll` returns exactly the rows that meet every condition of the filter, and never more rows than the table holds |
| `UserStore.FindOne` | services/UserService.js:18-22 | `findOne` returns a row of the table that meets the filter, and returns nothing exactly when no row does |
| `UserStore.SelectAppend` | services/UserService.js:105-115 | listing a table made of two parts lists the first part's hits, then the second's, so results keep table order |
| `UserStore.ApplyPatch` | services/UserService.js:68-73 | an update never changes a row's id or email, and the store stamps `updatedAt` with the current time |
| `UserStore.UpdateById` | services/UserService.js:68-73 | `update(..., {where: {id}})` keeps the table's length, patches every row with that id and leaves every other row as it was |
| `UserStore.UserTable.Create` | services/UserService.js:32-38 | `create` appends exactly one row, with an id no earlier row has, and keeps ids distinct |
| `UserStore.UserTable.Update` | services/UserService.js:92-98 | a store update adds and removes no rows and keeps ids distinct |
| `UserService.Refusal` | services/UserService.js:12-28 | a create is refused for mismatched passwords first; otherwise it is refused exactly when any row, active or soft-deleted, has the email |
| `UserService.CreateUser` | services/UserService.js:4-43 | mismatched passwords or a known email (of any status) give 400 and no write; otherwise one row is appended with a fresh id, `status = true` and the hashed password, the response is 200 with that id, and `getUserById` then finds that row |
| `UserService.GetUserById` | services/UserService.js:45-55 | always 200; the result is an active row with that id, and it is empty exactly when no active row has that id |
| `UserService.UpdateUser` | services/UserService.js:57-78 | always 200. Only rows with that id change. In them, name and cellphone are replaced exactly when supplied (an empty string too), and the password becomes the hash of the new one exactly when that is a non-empty string. Id, email and status are kept |
| `UserService.DeleteUser` | services/UserService.js:92-102 | always 200; rows with that id get `status = false` and a new `updatedAt`, nothing else changes, and `getUserById` then finds nothing |
| `UserService.GetAllUsers` | services/UserService.js:105-115 | always 200; the list holds exactly the active rows |
| `UserService.BuildWhere` | services/UserService.js:117-142 | the assembled filter accepts a row exactly when the row meets every condition the query states. `eliminado == "true"` selects deleted rows, any other value selects active rows, and an empty name adds no condition. The two date bounds combine into one open range |
| `UserService.FindUsers` | services/UserService.js:117-158 | 404 exactly when no row meets the query. Otherwise 200 with a non-empty list of exactly the rows that meet it |
| `UserService.BulkStep` | services/UserService.js:165-197 | with only the insert inside the `try` able to fail, each entry raises exactly one counter. It is inserted, as one appended row with the next id, exactly when its passwords match, its email is unknown and the store does not throw |
| `UserService.BulkCreate` | services/UserService.js:160-204 | the loop ends in the state `BulkInsert` describes: code 200, the two counts add up to the batch size, and the table grows by exactly the successes, with every earlier row untouched |
| `UserService.CreatedUserIsFound` | services/UserService.js:30-55 | a newly created active row with a fresh id is what the lookup by id and `status = true` returns |
| `UserService.SoftDeleteHides` | services/UserService.js:92-115 | after a soft delete, neither the lookup by id nor the list of active users sees a row with that id |
| `UserService.SoftDeleteIdempotent` | services/UserService.js:92-98 | deleting twice leaves the same table as deleting once at the later time |
| `UserService.BulkCounts` | services/UserService.js:162-203 | after any batch, successes plus errors equal the batch size, the table grows by the successes, and the old rows form its prefix |
| `UserService.BulkAddsActiveHashedUsers` | services/UserService.js:184-193 | every row a batch adds is active, has the next consecutive id, and is built from an entry whose passwords matched, with that password hashed |
| `UserService.BulkPrefixGrows` | services/UserService.js:165-198 | the table after the first k entries of a batch is a prefix of the table after the whole batch |
| `UserService.BatchDuplicateFails` | services/UserService.js:173-182 | an entry whose email an earlier entry of the same batch inserted is counted as an error and not inserted |

## Left out

- Store and hasher failures other than the bulk insert at `services/UserService.js:187`: in the source a rejected store call (:18, :32, :48, :68, :92, :106, :144) or a throwing `bcrypt.hash` (:30, :66) rejects the request with no `{code, message}`. In `bulkCreate`, a rejected email lookup at :173 or a throwing hash at :184 aborts the batch mid-way: the rows already inserted stay and no counts are returned. The model lets only the insert inside the `try` (:186-197) fail, so every operation answers with a `Response` and each batch entry raises exactly one counter.
- Sequelize and the database: replaced by the in-memory `UserTable`. SQL `LIKE` wildcards (`%`, `_` inside the searched name) and collation or case folding are not modelled. `LIKE` is plain case-sensitive substring containment.
- bcrypt: an opaque `hash` parameter. Its salt, cost factor 10 and internals are not modelled.
- `new Date(...)` parsing of `lastLoginBefore`/`lastLoginAfter`: the bounds arrive as parsed integer timestamps. An empty or absent parameter is `None`, and an unparsable date is not modelled.
- async/await and concurrent requests: the model is sequential. The race between two creates with the same email is a store concern.
- Message wording: only the created id and the two bulk counts are kept. The other texts are constructor tags.
- The commented-out hard delete at `services/UserService.js:81-85`.
- The unawaited lookups at `services/UserService.js:58-63` and `:86-91` as Promise objects. The first is modelled by the intent of lines 65–67 (`UpdateUser`): a field the caller did not supply keeps its stored value. The second has no effect.
- JavaScript coercions of request values: ids are natural numbers, create fields are strings, and update fields are optional strings. A missing create field, non-string values and string ids from the URL are not modelled.
- `createdAt` is not modelled. A batch uses one `now` for all of its inserts. A failed insert does not consume an id.
- BulkCreate: does not report which entries failed, as the source does not. Per-entry outcomes are exposed only through the specification function `BulkInsert`.
