/**
 * The `Bookmarks` table as the adapter sees it through TypeORM, and what each of the
 * eight adapter operations does to it and answers (src/adapters/postgres/bookmark-adapter.ts).
 *
 * `findOne({ where })` is "some row matching every field the where-object sets",
 * `save` of a new row is an insert, `save` of a fetched row overwrites it, `remove`
 * deletes its id. Every save that writes ticks the logical clock that stands in for the
 * `createdAt`/`updatedAt` timestamps. The `id` and `userId` columns are of type `uuid`:
 * rows hold the spelling the column reads back (module Uuid), and lookups compare
 * UUID values, not strings. Each operation is specified by an outcome
 * predicate relating the table before, the inputs, the response and the table after;
 * the class in module PostgresAdapter implements them and the controller reuses them.
 */
module BookmarkTable {
  import opened Wrappers
  import opened Validators
  import opened BookmarkEntity
  import opened Uuid
  import CreateDto
  import UpdateDto
  import SearchDto

  datatype Table = Table(rows: map<string, Bookmark>, clock: nat)

  /**
   * Every row is stored under its own primary key, its uuid columns hold the spelling
   * the database reads back, its timestamps are ticks already issued
   * (createdAt <= updatedAt < clock), and no two rows were inserted at the same tick.
   */
  predicate WellFormed(t: Table) {
    && (forall id :: id in t.rows ==>
          && t.rows[id].id == id && Canon(id) == id && Canon(t.rows[id].userId) == t.rows[id].userId
          && t.rows[id].createdAt <= t.rows[id].updatedAt < t.clock)
    && (forall i, j :: i in t.rows && j in t.rows && i != j ==> t.rows[i].createdAt != t.rows[j].createdAt)
  }

  /**
   * A row satisfies a TypeORM where-object on userId and doId. A field left undefined
   * in the where-object imposes no condition at all; userId is compared as a UUID
   * value, doId (a varchar) as a string.
   */
  predicate Matches(b: Bookmark, userId: Option<string>, doId: Option<string>) {
    (userId.Some? ==> SameUuid(b.userId, userId.value)) && (doId.Some? ==> b.doId == doId.value)
  }

  predicate HasMatch(rows: map<string, Bookmark>, userId: Option<string>, doId: Option<string>) {
    exists id :: id in rows && Matches(rows[id], userId, doId)
  }

  /** At most one row per (user, doId): the invariant create is written to keep. */
  predicate UniquePairs(rows: map<string, Bookmark>) {
    forall i, j ::
      i in rows && j in rows && SameUuid(rows[i].userId, rows[j].userId) && rows[i].doId == rows[j].doId ==> i == j
  }

  /** The message of a response; the comments give the source's text or constant. */
  datatype Message =
    | AlreadyExists        // "Bookmark already exists"
    | Created              // "Bookmark created successfully"
    | InternalError        // "Internal server error occurred"
    | BookmarkNotFound     // API_RESPONSES.BOOKMARK_NOT_FOUND
    | BookmarkUpdated      // API_RESPONSES.BOOKMARK_UPDATED_SUCCESSFULLY
    | BookmarkDeleted      // API_RESPONSES.BOOKMARK_DELETED_SUCCESSFULLY
    | PairNotFound         // "Bookmark not found for the specified user and content"
    | BookmarkRemoved      // "Bookmark removed successfully"
    | BookmarkFetched      // API_RESPONSES.BOOKMARK_GET_SUCCESSFULLY
    | BookmarksSearched    // API_RESPONSES.BOOKMARK_SEARCH_SUCCESSFULLY
    | UserBookmarksListed  // "User's bookmarked content retrieved successfully"
    | StatusChecked        // "Bookmark status checked successfully"
    | UserIdRequired       // "User ID is required"
    | SameIds              // "User ID and Content ID cannot be the same"
    | MissingTenantId      // "Missing tenantId in request headers"

  datatype Payload =
    | NoPayload
    | One(row: Bookmark)
    | EmptyObject
    | RemovedPair(deletedBookmarkId: string, userId: Option<string>, doId: Option<string>)
    | Found(matches: set<Bookmark>)
    | Listing(bookmarks: seq<Bookmark>, totalCount: nat)
    | BookmarkStatus(isBookmarked: bool)

  /** What `APIResponse.success` / `APIResponse.error` would write: status, message, payload. */
  datatype Response = Response(status: nat, message: Message, payload: Payload)

  // ---------------------------------------------------------------- create

  /**
   * The row create makes the database store: the fresh id and the DTO's pair and
   * creator, both stamps now. Its uuid columns hold the spellings read back, which
   * denote the UUIDs the code set.
   */
  function NewRow(id: string, userId: string, doId: string, createdBy: Option<string>, now: nat): (b: Bookmark)
    ensures Canon(b.id) == b.id && SameUuid(b.id, id)
    ensures Canon(b.userId) == b.userId && SameUuid(b.userId, userId)
  {
    CanonIdempotent(id);
    CanonIdempotent(userId);
    Bookmark(Canon(id), Canon(userId), doId, now, now, createdBy, None)
  }

  /**
   * Inserting the new row under the value of its id, stamped at the current tick, keeps
   * the table well formed, whatever the id: every older row was stamped at an earlier tick.
   */
  lemma InsertNewRowKeepsWellFormed(t: Table, id: string, userId: string, doId: string, createdBy: Option<string>)
    requires WellFormed(t)
    ensures WellFormed(Table(t.rows[Canon(id) := NewRow(id, userId, doId, createdBy, t.clock)], t.clock + 1))
  {
    var key := Canon(id);
    var t' := Table(t.rows[key := NewRow(id, userId, doId, createdBy, t.clock)], t.clock + 1);
    forall i, j | i in t'.rows && j in t'.rows && i != j ensures t'.rows[i].createdAt != t'.rows[j].createdAt {
      if i == key { assert t'.rows[j] == t.rows[j]; }
      else if j == key { assert t'.rows[i] == t.rows[i]; }
      else { assert t'.rows[i] == t.rows[i] && t'.rows[j] == t.rows[j]; }
    }
  }

  /**
   * Create: when some row matches the DTO's (userId, doId), that row comes back with 200
   * and nothing is written. Otherwise a row is inserted under the value of `freshId`
   * and echoed with 201. The echo is the object the code saved, so its id and userId
   * are spelled as the code set them, where the stored row holds the spellings read
   * back. A DTO missing userId or doId that matches no row makes the insert break the
   * NOT NULL columns: the database error becomes a 500 and nothing is written.
   */
  ghost predicate CreateOutcome(t: Table, dto: CreateDto.BookmarkCreateDto, freshId: string, resp: Response, t': Table) {
    if HasMatch(t.rows, dto.userId, dto.doId) then
      && t' == t
      && resp.status == 200 && resp.message == AlreadyExists && resp.payload.One?
      && resp.payload.row in t.rows.Values && Matches(resp.payload.row, dto.userId, dto.doId)
    else if dto.userId.None? || dto.doId.None? then
      t' == t && resp == Response(500, InternalError, NoPayload)
    else
      var row := NewRow(freshId, dto.userId.value, dto.doId.value, dto.createdBy, t.clock);
      && t' == Table(t.rows[Canon(freshId) := row], t.clock + 1)
      && resp == Response(201, Created, One(row.(id := freshId, userId := dto.userId.value)))
  }

  // ---------------------------------------------------------------- update

  /**
   * The fetched row after update has assigned to it: doId only when the DTO's doId is
   * truthy, updatedBy whenever the DTO carries one (TypeORM skips an undefined property
   * when saving), and the update stamp of the UPDATE that writes them. Everything else
   * is kept.
   */
  function Updated(b: Bookmark, dto: UpdateDto.BookmarkUpdateDto, now: nat): (r: Bookmark)
    ensures r.id == b.id && r.userId == b.userId && r.createdBy == b.createdBy && r.createdAt == b.createdAt
    ensures r.doId == if NonEmpty(dto.doId) then dto.doId.value else b.doId
    ensures dto.updatedBy.Some? ==> r.updatedBy == dto.updatedBy
    ensures dto.updatedBy.None? ==> r.updatedBy == b.updatedBy
    ensures r.updatedAt == now
  {
    var withDoId := if NonEmpty(dto.doId) then b.(doId := dto.doId.value) else b;
    var withUpdater := if dto.updatedBy.Some? then withDoId.(updatedBy := dto.updatedBy) else withDoId;
    withUpdater.(updatedAt := now)
  }

  /**
   * Whether update's assignments change a column of the fetched row: TypeORM's `save`
   * compares each defined property with the stored value, as a JavaScript value, and
   * sends an UPDATE only when some column differs.
   */
  predicate Changes(b: Bookmark, dto: UpdateDto.BookmarkUpdateDto) {
    (NonEmpty(dto.doId) && dto.doId.value != b.doId) || (dto.updatedBy.Some? && dto.updatedBy != b.updatedBy)
  }

  /** A save that changes no column would have rewritten the row as it was, stamp aside. */
  lemma UnchangedSaveKeepsRow(b: Bookmark, dto: UpdateDto.BookmarkUpdateDto)
    ensures !Changes(b, dto) <==> Updated(b, dto, b.updatedAt) == b
  {
    if Updated(b, dto, b.updatedAt) == b {
      assert Updated(b, dto, b.updatedAt).doId == b.doId;
      assert Updated(b, dto, b.updatedAt).updatedBy == b.updatedBy;
    }
  }

  /**
   * Update: an unknown id is a 404 with no write. A known id (in any spelling of its
   * UUID) answers 200 with its row: when the assignments change no column nothing is
   * written and the row keeps its stamp, otherwise the row is overwritten by `Updated`.
   * No check for an existing (userId, doId) pair is made when doId changes.
   */
  ghost predicate UpdateOutcome(t: Table, id: string, dto: UpdateDto.BookmarkUpdateDto, resp: Response, t': Table) {
    if Canon(id) !in t.rows then
      t' == t && resp == Response(404, BookmarkNotFound, NoPayload)
    else if !Changes(t.rows[Canon(id)], dto) then
      t' == t && resp == Response(200, BookmarkUpdated, One(t.rows[Canon(id)]))
    else
      var row := Updated(t.rows[Canon(id)], dto, t.clock);
      t' == Table(t.rows[Canon(id) := row], t.clock + 1) && resp == Response(200, BookmarkUpdated, One(row))
  }

  /** Every update outcome leaves a well-formed table well formed. */
  lemma UpdateKeepsWellFormed(t: Table, id: string, dto: UpdateDto.BookmarkUpdateDto, resp: Response, t': Table)
    requires WellFormed(t) && UpdateOutcome(t, id, dto, resp, t')
    ensures WellFormed(t')
  {
    var key := Canon(id);
    if key in t.rows && Changes(t.rows[key], dto) {
      forall i, j | i in t'.rows && j in t'.rows && i != j ensures t'.rows[i].createdAt != t'.rows[j].createdAt {
        assert t'.rows[i].createdAt == t.rows[i].createdAt;
        assert t'.rows[j].createdAt == t.rows[j].createdAt;
      }
    }
  }

  // ---------------------------------------------------------------- deletes

  /** Delete by id: 404 and no write when absent; otherwise exactly that row goes, 200 with `{}`. */
  ghost predicate DeleteOutcome(t: Table, id: string, resp: Response, t': Table) {
    if Canon(id) !in t.rows then
      t' == t && resp == Response(404, BookmarkNotFound, NoPayload)
    else
      t' == Table(t.rows - {Canon(id)}, t.clock) && resp == Response(200, BookmarkDeleted, EmptyObject)
  }

  /**
   * Delete by (userId, doId): 404 and no write when no row matches the where-object;
   * otherwise exactly one matching row goes, and the payload echoes its former id with
   * the userId and doId as given. The two values arrive unchecked from the request
   * body, so either may be undefined, and an undefined one sets no condition: with
   * only doId, any user's row with that doId may go; with neither, any row.
   */
  ghost predicate DeleteByPairOutcome(t: Table, userId: Option<string>, doId: Option<string>, resp: Response, t': Table) {
    if !HasMatch(t.rows, userId, doId) then
      t' == t && resp == Response(404, PairNotFound, NoPayload)
    else
      exists id :: id in t.rows && Matches(t.rows[id], userId, doId)
        && t' == Table(t.rows - {id}, t.clock)
        && resp == Response(200, BookmarkRemoved, RemovedPair(id, userId, doId))
  }

  // ---------------------------------------------------------------- reads

  /** Get by id: the row with 200, or 404. */
  ghost predicate GetOutcome(t: Table, id: string, resp: Response) {
    if Canon(id) in t.rows then resp == Response(200, BookmarkFetched, One(t.rows[Canon(id)]))
    else resp == Response(404, BookmarkNotFound, NoPayload)
  }

  /**
   * Search: every row that passes each filter actually supplied (a truthy userId, a
   * truthy doid), with 200.
   */
  ghost predicate SearchOutcome(t: Table, q: SearchDto.BookmarkSearchDto, resp: Response) {
    && resp.status == 200 && resp.message == BookmarksSearched && resp.payload.Found?
    && forall b :: b in resp.payload.matches <==>
         && b in t.rows.Values
         && (NonEmpty(q.userId) ==> SameUuid(b.userId, q.userId.value))
         && (NonEmpty(q.doid) ==> b.doId == q.doid.value)
  }

  /**
   * Search as the source writes it. Its second filter is the SQL text `bookmark.doid`,
   * which TypeORM leaves as it is (no entity property is spelled `doid`) and which
   * PostgreSQL folds to the column `doid`; the table's column is `"doId"`. The query is
   * refused and the catch block answers 500.
   */
  ghost predicate SearchAsWrittenOutcome(t: Table, q: SearchDto.BookmarkSearchDto, resp: Response) {
    if NonEmpty(q.doid) then resp == Response(500, InternalError, NoPayload)
    else SearchOutcome(t, q, resp)
  }

  /** As written, a search that supplies doid never answers as intended, even on a row it should find. */
  lemma SearchByDoIdAsWrittenFails(t: Table, q: SearchDto.BookmarkSearchDto, resp: Response, b: Bookmark)
    requires SearchAsWrittenOutcome(t, q, resp)
    requires NonEmpty(q.doid) && b in t.rows.Values && b.doId == q.doid.value
    requires NonEmpty(q.userId) ==> SameUuid(b.userId, q.userId.value)
    ensures resp.status == 500
    ensures !SearchOutcome(t, q, resp)
    ensures forall r :: SearchOutcome(t, q, r) ==> b in r.payload.matches
  {
  }

  /** Strictly decreasing createdAt: newest first, as `order: { createdAt: 'DESC' }`. */
  predicate NewestFirst(s: seq<Bookmark>) {
    forall i, j :: 0 <= i < j < |s| ==> s[i].createdAt > s[j].createdAt
  }

  /**
   * List for a user: exactly the rows of that user's UUID (each once), newest first, with
   * `totalCount` the number of rows returned.
   */
  ghost predicate ListOutcome(t: Table, userId: string, resp: Response) {
    && resp.status == 200 && resp.message == UserBookmarksListed && resp.payload.Listing?
    && (forall b :: b in resp.payload.bookmarks <==> b in t.rows.Values && SameUuid(b.userId, userId))
    && NewestFirst(resp.payload.bookmarks)
    && resp.payload.totalCount == |resp.payload.bookmarks|
  }

  /** Check: always 200, and `isBookmarked` exactly when some row has the pair. */
  ghost predicate CheckOutcome(t: Table, userId: string, doId: string, resp: Response) {
    resp == Response(200, StatusChecked, BookmarkStatus(HasMatch(t.rows, Some(userId), Some(doId))))
  }

  /**
   * In a well-formed table, looking up the value of an id finds the row stored under
   * any spelling of that UUID, and nothing else.
   */
  lemma IdLookupIsByValue(t: Table, id: string)
    requires WellFormed(t)
    ensures Canon(id) in t.rows <==> exists k :: k in t.rows && SameUuid(k, id)
  {
    CanonIdempotent(id);
    if exists k :: k in t.rows && SameUuid(k, id) {
      var k :| k in t.rows && SameUuid(k, id);
      assert k == Canon(k) == Canon(id);
    }
  }

  /**
   * Place `b` into a newest-first sequence: the step a database takes to answer
   * `ORDER BY "createdAt" DESC`, one row at a time.
   */
  function InsertNewestFirst(s: seq<Bookmark>, b: Bookmark): (r: seq<Bookmark>)
    ensures multiset(r) == multiset(s) + multiset{b}
  {
    if s == [] || b.createdAt > s[0].createdAt then [b] + s
    else
      assert s == [s[0]] + s[1..];
      [s[0]] + InsertNewestFirst(s[1..], b)
  }

  /** The rows of the result are those of `s` and `b`. */
  lemma InsertMembers(s: seq<Bookmark>, b: Bookmark)
    ensures forall x :: x in InsertNewestFirst(s, b) <==> x in s || x == b
  {
    var r := InsertNewestFirst(s, b);
    forall x ensures x in r <==> x in s || x == b {
      assert x in r <==> x in multiset(r);
      assert x in s <==> x in multiset(s);
    }
  }

  /** A row older than every row of a newest-first sequence may lead it. */
  lemma ConsKeepsNewestFirst(x: Bookmark, rest: seq<Bookmark>)
    requires NewestFirst(rest)
    requires forall y :: y in rest ==> y.createdAt < x.createdAt
    ensures NewestFirst([x] + rest)
  {
    var r := [x] + rest;
    forall i, j | 0 <= i < j < |r| ensures r[i].createdAt > r[j].createdAt {
      assert r[j] == rest[j - 1];
      if i > 0 { assert r[i] == rest[i - 1]; } else { assert rest[j - 1] in rest; }
    }
  }

  /** The tail of a newest-first sequence is newest first and younger than its head. */
  lemma TailNewestFirst(s: seq<Bookmark>)
    requires NewestFirst(s) && s != []
    ensures NewestFirst(s[1..])
    ensures forall y :: y in s[1..] ==> y.createdAt < s[0].createdAt
  {
    var tail := s[1..];
    forall i, j | 0 <= i < j < |tail| ensures tail[i].createdAt > tail[j].createdAt {
      assert tail[i] == s[i + 1] && tail[j] == s[j + 1];
    }
    forall y | y in tail ensures y.createdAt < s[0].createdAt {
      var k :| 0 <= k < |tail| && tail[k] == y;
      assert s[k + 1] == y;
    }
  }

  /** Inserting a row whose stamp differs from all others keeps the order strict. */
  lemma {:induction false} InsertKeepsNewestFirst(s: seq<Bookmark>, b: Bookmark)
    requires NewestFirst(s)
    requires forall x :: x in s ==> x.createdAt != b.createdAt
    ensures NewestFirst(InsertNewestFirst(s, b))
  {
    if s == [] {
    } else {
      TailNewestFirst(s);
      if b.createdAt > s[0].createdAt {
        assert s == [s[0]] + s[1..];
        ConsKeepsNewestFirst(b, s);
      } else {
        var tail := s[1..];
        assert s == [s[0]] + tail;
        forall x | x in tail ensures x.createdAt != b.createdAt {
          assert x in s;
        }
        InsertKeepsNewestFirst(tail, b);
        InsertMembers(tail, b);
        assert s[0] in s;
        ConsKeepsNewestFirst(s[0], InsertNewestFirst(tail, b));
      }
    }
  }
}
