# Bookmark module: a verified model

This project models the bookmark module of a NestJS user micro-service. A bookmark says
"this user has favourited this content": a row of the `Bookmarks` table that links a
`userId` (a UUID) to a content id `doId` (`do_<digits>`).

The model has three layers:

- the adapter `PostgresBookmarkService` and its eight table operations: create, update,
  delete by id, delete by (userId, doId), get by id, search, list for a user, and check;
- the controller guards that run before the adapter is called;
- the validation rules of the four DTOs (the request bodies and queries).

The database is an in-memory table, `map<string, Bookmark>` keyed by primary key. A logical
clock stands in for the `createdAt`/`updatedAt` timestamps.

Files and modules:

- `wrappers.dfy` (`Wrappers`): `Option`, and `Lookup`, the helper behind the
  `Object.assign(this, partial)` constructors.
- `entity.dfy` (`BookmarkEntity`): the `Bookmark` row. `userId` and `doId` are NOT NULL
  strings. `createdBy` and `updatedBy` are nullable.
- `uuid.dfy` (`Uuid`): how PostgreSQL's `uuid` type reads a string. `Digits` is the value a
  spelling writes (hex case and hyphens or braces do not matter), `Canon` the lower-case
  8-4-4-4-12 spelling the column reads back, and `SameUuid` the comparison `=` makes.
- `validators.dfy` (`Validators`): `IsContentId` (`^do_\d+$`), `IsUuidShape` (8-4-4-4-12
  hex), `NonEmpty` (class-validator's `IsNotEmpty`, which is also JavaScript truthiness of
  an optional string), the rule messages, and the messages each decorator combination
  produces for one field.
- `create_dto.dfy`, `check_dto.dfy`, `search_dto.dfy`, `update_dto.dfy`: one module per DTO.
  Each has the DTO datatype (every field optional, as built from a partial), a `Valid`
  predicate, and `Errors`, the set of messages of the broken rules.
- `bookmark_table.dfy` (`BookmarkTable`): the table value `Table(rows, clock)`, the response
  datatype, and one outcome predicate per adapter operation. Each predicate relates the
  table before, the inputs, the response and the table after.
- `table_invariants.dfy` (`TableInvariants`): the "at most one row per (userId, doId)"
  invariant. Create and both deletes keep it, over single steps and over any run. Update
  does not, and a counterexample shows this.
- `bookmark_adapter.dfy` (`PostgresAdapter`): the class `PostgresBookmarkService` with
  fields `rows` and `clock`. Its methods change the table in place and promise their
  outcome predicates.
- `bookmark_controller.dfy` (`Controller`): the class `BookmarkController` around an
  adapter, and lemmas about the guards.

How TypeORM calls are modelled:

- `findOne({ where })` returns some row that matches every field the where-object sets. A
  field that is `undefined` sets no condition. This is TypeORM's treatment of undefined
  where-values.
- The `id` and `userId` columns have type `uuid`. A where-condition, a query-builder
  parameter or a primary-key lookup on them compares UUID values, so `123E4567-...` finds
  the row stored as `123e4567-...`. Rows hold the spelling the column reads back. `doId`
  is a `varchar` and compares as a string.
- `save` of a new row inserts it. `save` of a fetched row sends an UPDATE only when some
  assigned column differs from the stored value; otherwise nothing is written. `remove`
  deletes that id.
- Every save that writes ticks the clock.
- `uuidv4()` becomes a `freshId` argument whose UUID is required not to be in the table.

Two behaviours of the code are easy to misread; the model states them as the code has them:

- Update does not "apply only the fields present". It assigns `doId` only when the
  supplied `doId` is truthy, and it always assigns `updatedBy`.
- Nothing in the adapter enforces the `do_<digits>` form. Only the DTO rules do.

## Model

| member | source | states |
|---|---|---|
| `Uuid.SameUuidIffSameDigits` | src/bookmark/entities/bookmark.entity.ts:11-15 | two spellings are equal as `uuid` values exactly when they write the same hexadecimal digits, ignoring case, hyphens and braces |
| `Uuid.CanonSameDigits` | src/bookmark/entities/bookmark.entity.ts:11-15 | the spelling a uuid column reads back denotes the value that was written |
| `Uuid.CanonIdempotent` | src/bookmark/entities/bookmark.entity.ts:11-15 | reading back a value already read back changes nothing |
| `Uuid.DigitsOfStandard` | src/bookmark/entities/bookmark.entity.ts:11-15 | the standard 8-4-4-4-12 form of a set of digits writes exactly those digits |
| `Uuid.CaseAndSeparatorsDoNotMatter` | src/bookmark/entities/bookmark.entity.ts:11-15 | lowering one hexadecimal digit, or dropping one hyphen or brace, keeps the UUID value |
| `Validators.UuidIsNeverContentId` | src/bookmark/dto/bookmark-create.dto.ts:17-27 | no string has both the UUID shape and the `do_<digits>` shape |
| `Validators.ContentIdIsNonEmpty` | src/bookmark/dto/bookmark-create.dto.ts:26-27 | a string matching `^do_\d+$` is non-empty, so the pattern rule implies `IsNotEmpty` |
| `Validators.DocumentedExamplesAreValid` | src/bookmark/dto/bookmark-create.dto.ts:13-27 | the documented example UUID and content id have their shapes; `do_`, `do_12a` and `DO_12` are not content ids |
| `Validators.RequiredUuidErrors` | src/bookmark/dto/bookmark-create.dto.ts:16-17 | a required UUID field breaks no rule iff it is present, non-empty and UUID-shaped; "User ID is required" appears exactly when it is missing or empty |
| `Validators.RequiredContentIdErrors` | src/bookmark/dto/bookmark-create.dto.ts:26-27 | a required content-id field breaks no rule iff it is present, non-empty and matches `^do_\d+$`; "Content ID (doId) is required" appears exactly when it is missing or empty |
| `Validators.OptionalUuidErrors` | src/bookmark/dto/bookmark-search.dto.ts:15-16 | an optional UUID field breaks no rule iff it is absent or UUID-shaped (a supplied empty string fails) |
| `Validators.OptionalContentIdErrors` | src/bookmark/dto/bookmark-update.dto.ts:17-18 | an optional content-id field breaks no rule iff it is absent or matches `^do_\d+$` |
| `CreateDto.FromPartial` | src/bookmark/dto/bookmark-create.dto.ts:38-40 | userId, doId and createdBy are each present exactly when the partial supplies them, and then hold the supplied value |
| `CreateDto.Errors` | src/bookmark/dto/bookmark-create.dto.ts:15-36 | no rule is broken iff userId is present, non-empty and UUID-shaped and doId is present, non-empty and a content id; the "required" messages appear exactly for a missing or empty field; createdBy contributes no message |
| `CheckDto.FromPartial` | src/bookmark/dto/bookmark-check.dto.ts:30-32 | userId and doId are each present exactly when the partial supplies them, and then hold the supplied value |
| `CheckDto.Errors` | src/bookmark/dto/bookmark-check.dto.ts:15-28 | no rule is broken iff userId is a present, non-empty UUID and doId a present, non-empty content id; the "required" messages appear exactly for a missing or empty field |
| `SearchDto.FromPartial` | src/bookmark/dto/bookmark-search.dto.ts:29-31 | userId and doid are each present exactly when the partial supplies them, and then hold the supplied value |
| `SearchDto.Errors` | src/bookmark/dto/bookmark-search.dto.ts:14-27 | no rule is broken iff each field is absent or has its shape (UUID for userId, content id for doid); the empty query passes |
| `UpdateDto.FromPartial` | src/bookmark/dto/bookmark-update.dto.ts:24-26 | doId and updatedBy are set exactly when supplied, to the supplied values; the others stay absent |
| `UpdateDto.Errors` | src/bookmark/dto/bookmark-update.dto.ts:16-22 | no rule is broken iff doId is absent or a content id; an absent doId passes; updatedBy has no rule |
| `BookmarkTable.NewRow` | src/adapters/postgres/bookmark-adapter.ts:51-57 | the stored id and userId are in the spelling the uuid columns read back, and denote the UUIDs the code set |
| `BookmarkTable.InsertNewRowKeepsWellFormed` | src/adapters/postgres/bookmark-adapter.ts:51-57 | saving a new row under its id, stamped at the current tick, keeps the table well formed: every row under its own key, stamps already issued, creation stamps distinct |
| `BookmarkTable.Updated` | src/adapters/postgres/bookmark-adapter.ts:100-105 | id, userId, createdBy and createdAt are unchanged; doId is replaced only by a truthy doId; updatedBy is overwritten whenever supplied; updatedAt is the stamp of the UPDATE that writes the row |
| `BookmarkTable.UnchangedSaveKeepsRow` | src/adapters/postgres/bookmark-adapter.ts:100-105 | update's assignments change no column exactly when they would leave the fetched row as it was, so `save` has nothing to send |
| `BookmarkTable.UpdateKeepsWellFormed` | src/adapters/postgres/bookmark-adapter.ts:85-113 | every update outcome keeps the table well formed |
| `BookmarkTable.IdLookupIsByValue` | src/adapters/postgres/bookmark-adapter.ts:85-87 | in a well-formed table, the lookup by id finds a row exactly when some row's id is the same UUID in another spelling |
| `BookmarkTable.InsertNewestFirst` | src/adapters/postgres/bookmark-adapter.ts:293-297 | inserting a row gives a permutation of the old rows plus that row |
| `BookmarkTable.InsertMembers` | src/adapters/postgres/bookmark-adapter.ts:293-297 | the rows after insertion are exactly the old rows and the new one |
| `BookmarkTable.InsertKeepsNewestFirst` | src/adapters/postgres/bookmark-adapter.ts:295 | inserting a row with a distinct createdAt keeps the rows in strictly decreasing createdAt order |
| `BookmarkTable.SearchByDoIdAsWrittenFails` | src/adapters/postgres/bookmark-adapter.ts:255-265 | as written, a search with a truthy doid answers 500, with or without a userId filter, although the intended search returns every row that passes both filters |
| `TableInvariants.CreateKeepsUniquePairs` | src/adapters/postgres/bookmark-adapter.ts:31-57 | create keeps "at most one row per (userId, doId)", because it inserts only when no row has the pair |
| `TableInvariants.RemoveKeepsUniquePairs` | src/adapters/postgres/bookmark-adapter.ts:143 | removing any row keeps "at most one row per pair" |
| `TableInvariants.StepKeepsUniquePairs` | src/adapters/postgres/bookmark-adapter.ts:31-197 | each create, delete-by-id and delete-by-pair keeps "at most one row per pair" |
| `TableInvariants.TraceKeepsUniquePairs` | src/adapters/postgres/bookmark-adapter.ts:31-57 | starting from a table with at most one row per pair, every table reached by a run of creates and deletes has at most one row per pair |
| `TableInvariants.UpdateCanDuplicatePair` | src/adapters/postgres/bookmark-adapter.ts:100-105 | some well-formed table with unique pairs has an update after which two rows share a pair, so update does not keep the invariant |
| `TableInvariants.CreateReturnsTheExistingRow` | src/adapters/postgres/bookmark-adapter.ts:31-47 | with unique pairs, a create whose pair exists, its userId in any spelling of the stored UUID, answers 200 "already exists" with exactly that row and writes nothing |
| `TableInvariants.CreateAddsExactlyOneRow` | src/adapters/postgres/bookmark-adapter.ts:51-66 | a create on a fresh pair with a fresh id answers 201; the table gains exactly one row, under that id's value, with the given user, doId and createdBy; every other row is untouched; the echo is that row with the id and userId spelled as the code set them |
| `TableInvariants.DeleteWithoutUserIdRemovesAnyUsersRow` | src/adapters/postgres/bookmark-adapter.ts:170-172 | a delete body without userId removes, with 200, one row of whichever user has the doId (any row when doId is absent too), so the table loses a row |
| `TableInvariants.StepKeepsWellFormed` | src/bookmark/entities/bookmark.entity.ts:11-30 | every create or delete keeps each row under its own primary key, with stamps already issued and distinct creation stamps |
| `PostgresAdapter.PostgresBookmarkService.FindOne` | src/adapters/postgres/bookmark-adapter.ts:31-36 | returns nothing iff no row matches the where-object, userId compared as a UUID value; otherwise a stored row that matches it |
| `PostgresAdapter.PostgresBookmarkService.CreateBookmark` | src/adapters/postgres/bookmark-adapter.ts:29-66 | an existing row of the same user's UUID and doId comes back with 200 and no write; otherwise exactly one new row is inserted under the fresh id's value and echoed, as the code spelled it, with 201; an insert that would break NOT NULL answers 500 with no write |
| `PostgresAdapter.PostgresBookmarkService.UpdateBookmark` | src/adapters/postgres/bookmark-adapter.ts:85-113 | an id whose UUID is in no row gives 404 with no write; for a known one, assignments that change no column answer 200 with the row and write nothing, otherwise only that row is rewritten by `Updated`, with 200 |
| `PostgresAdapter.PostgresBookmarkService.DeleteBookmark` | src/adapters/postgres/bookmark-adapter.ts:128-151 | an id whose UUID is in no row gives 404 with no write; otherwise exactly that row goes, with 200 and an empty payload |
| `PostgresAdapter.PostgresBookmarkService.DeleteBookmarkByUserAndContent` | src/adapters/postgres/bookmark-adapter.ts:170-198 | userId and doId may each be absent, and an absent one sets no condition; userId compares as a UUID value; no matching row gives 404 with no write; otherwise exactly one matching row is removed, and the payload echoes its former id with the userId and doId |
| `PostgresAdapter.PostgresBookmarkService.GetBookmarkById` | src/adapters/postgres/bookmark-adapter.ts:213-234 | read-only; the row stored under the id's UUID, in any spelling, with 200, or 404 when there is none |
| `PostgresAdapter.PostgresBookmarkService.SearchBookmarks` | src/adapters/postgres/bookmark-adapter.ts:253-274 | read-only; 200 with exactly the rows that pass each supplied filter (same user UUID, same doId); with no filter supplied, every row |
| `PostgresAdapter.PostgresBookmarkService.GetAllBookmarks` | src/adapters/postgres/bookmark-adapter.ts:293-307 | read-only; 200 with exactly the rows of that user's UUID, in any spelling, newest first by createdAt, and totalCount equal to the number returned |
| `PostgresAdapter.PostgresBookmarkService.CheckBookmark` | src/adapters/postgres/bookmark-adapter.ts:327-340 | read-only; always 200, with isBookmarked true iff some row has that user's UUID and that doId |
| `Controller.BookmarkController.GetAllBookmarks` | src/bookmark/bookmark.controller.ts:67-79 | a missing or empty userId gives 400 "User ID is required", without consulting the table; otherwise the adapter's list-for-user outcome |
| `Controller.BookmarkController.CreateBookmark` | src/bookmark/bookmark.controller.ts:101-118 | equal userId and doId give 400 with no write; otherwise the adapter creates with createdBy defaulted to userId when missing or empty (`Controller.WithDefaultCreatedBy`) |
| `Controller.BookmarkController.UpdateBookmark` | src/bookmark/bookmark.controller.ts:140-158 | a missing or empty tenantid header gives 400 with no write; otherwise the adapter updates with updatedBy replaced by the logged-in user id |
| `Controller.BookmarkController.DeleteBookmark` | src/bookmark/bookmark.controller.ts:187-188 | the outcome is delete-by-pair on the body's userId and doId as they arrive, each possibly absent, with no guard in between |
| `Controller.SameIdsGuardUnreachable` | src/bookmark/bookmark.controller.ts:106 | for a body that passes the create DTO rules, userId and doId differ, so the 400 guard never fires |
| `Controller.CreatedRowRecordsCreator` | src/bookmark/bookmark.controller.ts:101-103 | a row created through the controller always has a createdBy: the body's when it is non-empty, else the body's userId as spelled, a varchar copy of the stored user's UUID |
| `Controller.UpdateStampsLoginUser` | src/bookmark/bookmark.controller.ts:156-158 | after an update through the controller of a known id, the stored and echoed row carry the logged-in user id as updatedBy |

## Left out

- Database and driver failures are not modelled: connection loss, a string that is no UUID
  sent to a `uuid` column, and similar errors. The source turns them into the catch-all 500.
  Two 500 cases are modelled: a create insert that breaks NOT NULL, and the as-written
  search by doid.
- Concurrency is not modelled. The model is sequential, so the race between create's
  existence check and its insert does not arise.
- Framework plumbing is left out: NestJS and Swagger decorators, `SerializeOptions`,
  `AllExceptionsFilter`, `JwtAuthGuard` and `GetUserId`. The logged-in user id is a
  parameter.
- `ParseUUIDPipe` on the update route is not modelled. `bookmarkId` and `loginUserId` are any
  strings, and an id that is not in the table gives 404.
- The DTO rules are not wired in front of the controller. The global validation pipe that
  would run them is not part of this model. `Controller.SameIdsGuardUnreachable` shows what
  validated input would guarantee.
- `BookmarkDeleteDto` is not part of this model, so its rules are unknown here. The delete route
  takes the body's userId and doId as possibly absent, as an unvalidated body delivers them.
- The response envelope is reduced to status, message tag and payload. `APIResponse`,
  `APIID`, the `API_RESPONSES` texts and `LoggerUtil` are I/O.
- The DI wiring (`bookmark.module.ts`, `bookmarkadapter`) and the service-locator interface
  are left out. They hold no logic.
- Real timestamps are replaced by ticks of a logical clock. The clock ticks on every save
  that writes. An update whose assignments change no column writes nothing and keeps its stamp.
- `uuidv4()` randomness is replaced by the `freshId` argument.
- Uuid.Digits: reads every string as some value. It also accepts spellings PostgreSQL refuses
  (hyphens or braces in any place, a count of digits other than 32), which make the source's
  query fail with 500; for those the model answers as for the digits they write.
- Validators.IsUuidShape: checks only the 8-4-4-4-12 hexadecimal shape. It does not check
  the version and variant digits that class-validator's `IsUUID` also inspects.
- PostgresAdapter.PostgresBookmarkService.SearchBookmarks: compares the doid filter with
  `doId`, as intended. The query as written names a column `doid` (see Findings).
- PostgresAdapter.PostgresBookmarkService.SearchBookmarks: returns its rows as a set,
  because `getMany` without `orderBy` promises no order.
- PostgresAdapter.PostgresBookmarkService.UpdateBookmark: with no `updatedBy` the stored
  value is kept, because TypeORM skips undefined properties on save. The echoed object
  in the source would show the field as undefined. The controller always supplies it.

## Findings

| source | as written | input that shows it | evidently intended | confidence | as-written member | corrected member |
|---|---|---|---|---|---|---|
| src/adapters/postgres/bookmark-adapter.ts:262 | the filter text is `bookmark.doid = :doid`. TypeORM only rewrites property names it knows, and no property is spelled `doid`. PostgreSQL folds the unquoted `doid` to lower case, but the entity's column is `"doId"`, so the query fails and the catch answers 500 | any search with a non-empty `doid`, e.g. `doid = "do_1"`, on a table holding a row with `doId = "do_1"` | filter on the `doId` column and return the matching rows with 200 | medium; not executed | `BookmarkTable.SearchByDoIdAsWrittenFails` | `PostgresAdapter.PostgresBookmarkService.SearchBookmarks` |
