/**
 * `PostgresBookmarkService` (src/adapters/postgres/bookmark-adapter.ts) over an
 * in-memory `Bookmarks` table. Each method does what its TypeORM calls do to the
 * table and returns the response the source writes; its contract is the outcome
 * predicate of module BookmarkTable.
 */
module PostgresAdapter {
  import opened Wrappers
  import opened Validators
  import opened BookmarkEntity
  import opened Uuid
  import opened BookmarkTable
  import CreateDto
  import UpdateDto
  import SearchDto

  class PostgresBookmarkService {
    /** The table, keyed by primary key as the database reads it back. */
    var rows: map<string, Bookmark>
    /** The next tick of the logical clock that stamps createdAt and updatedAt. */
    var clock: nat

    function State(): Table
      reads this
    {
      Table(rows, clock)
    }

    predicate Valid()
      reads this
    {
      WellFormed(State())
    }

    /** An empty table. */
    constructor ()
      ensures Valid() && rows == map[] && clock == 0
    {
      rows := map[];
      clock := 0;
    }

    /** `findOne({ where: { userId, doId } })`: some matching row, or none when no row matches. */
    method FindOne(userId: Option<string>, doId: Option<string>) returns (found: Option<Bookmark>)
      requires Valid()
      ensures found.None? <==> !HasMatch(rows, userId, doId)
      ensures found.Some? ==> found.value.id in rows && rows[found.value.id] == found.value
      ensures found.Some? ==> Matches(found.value, userId, doId)
    {
      if exists id :: id in rows && Matches(rows[id], userId, doId) {
        var id :| id in rows && Matches(rows[id], userId, doId);
        found := Some(rows[id]);
      } else {
        found := None;
      }
    }

    /** `createBookmark`; `freshId` is the value `uuidv4()` would return. */
    method CreateBookmark(dto: CreateDto.BookmarkCreateDto, freshId: string) returns (resp: Response)
      requires Valid()
      requires Canon(freshId) !in rows
      modifies this
      ensures Valid()
      ensures CreateOutcome(old(State()), dto, freshId, resp, State())
    {
      var existing := FindOne(dto.userId, dto.doId);
      if existing.Some? {
        resp := Response(200, AlreadyExists, One(existing.value));
        return;
      }
      if dto.userId.None? || dto.doId.None? {
        // The insert would put NULL into a NOT NULL column: the database refuses it.
        resp := Response(500, InternalError, NoPayload);
        return;
      }
      // The object the code saves keeps its spellings; the database stores their values.
      var bookmark := Bookmark(freshId, dto.userId.value, dto.doId.value, clock, clock, dto.createdBy, None);
      InsertNewRowKeepsWellFormed(State(), freshId, dto.userId.value, dto.doId.value, dto.createdBy);
      rows := rows[Canon(freshId) := NewRow(freshId, dto.userId.value, dto.doId.value, dto.createdBy, clock)];
      clock := clock + 1;
      resp := Response(201, Created, One(bookmark));
    }

    /** `updateBookmark`: assign to the fetched row, then save it. */
    method UpdateBookmark(bookmarkId: string, dto: UpdateDto.BookmarkUpdateDto) returns (resp: Response)
      requires Valid()
      modifies this
      ensures Valid()
      ensures UpdateOutcome(old(State()), bookmarkId, dto, resp, State())
    {
      var key := Canon(bookmarkId);
      if key !in rows {
        resp := Response(404, BookmarkNotFound, NoPayload);
        return;
      }
      var fetched := rows[key];
      var bookmark := fetched;
      if NonEmpty(dto.doId) {
        bookmark := bookmark.(doId := dto.doId.value);
      }
      if dto.updatedBy.Some? {
        bookmark := bookmark.(updatedBy := dto.updatedBy);
      }
      assert bookmark == Updated(fetched, dto, fetched.updatedAt);
      UnchangedSaveKeepsRow(fetched, dto);
      if bookmark == fetched {
        // No column differs from the stored row: `save` sends no UPDATE.
        resp := Response(200, BookmarkUpdated, One(fetched));
        return;
      }
      bookmark := bookmark.(updatedAt := clock);
      UpdateKeepsWellFormed(State(), bookmarkId, dto, Response(200, BookmarkUpdated, One(bookmark)),
        Table(rows[key := bookmark], clock + 1));
      rows := rows[key := bookmark];
      clock := clock + 1;
      resp := Response(200, BookmarkUpdated, One(bookmark));
    }

    /** `deleteBookmark`: find by id, then remove. */
    method DeleteBookmark(bookmarkId: string) returns (resp: Response)
      requires Valid()
      modifies this
      ensures Valid()
      ensures DeleteOutcome(old(State()), bookmarkId, resp, State())
    {
      var key := Canon(bookmarkId);
      if key !in rows {
        resp := Response(404, BookmarkNotFound, NoPayload);
        return;
      }
      rows := rows - {key};
      resp := Response(200, BookmarkDeleted, EmptyObject);
    }

    /**
     * `deleteBookmarkByUserAndContent`: find one row matching the where-object, then
     * remove it. The parameters are typed `string` in the source, but the controller
     * passes the request body's fields unchecked, so either may be undefined.
     */
    method DeleteBookmarkByUserAndContent(userId: Option<string>, doId: Option<string>) returns (resp: Response)
      requires Valid()
      modifies this
      ensures Valid()
      ensures DeleteByPairOutcome(old(State()), userId, doId, resp, State())
    {
      var found := FindOne(userId, doId);
      if found.None? {
        resp := Response(404, PairNotFound, NoPayload);
        return;
      }
      var deletedBookmarkId := found.value.id;
      rows := rows - {deletedBookmarkId};
      resp := Response(200, BookmarkRemoved, RemovedPair(deletedBookmarkId, userId, doId));
    }

    /** `getBookmarkById`: read only. */
    method GetBookmarkById(bookmarkId: string) returns (resp: Response)
      requires Valid()
      ensures GetOutcome(State(), bookmarkId, resp)
    {
      var key := Canon(bookmarkId);
      if key !in rows {
        resp := Response(404, BookmarkNotFound, NoPayload);
        return;
      }
      resp := Response(200, BookmarkFetched, One(rows[key]));
    }

    /**
     * `searchBookmarks`: the query builder gains one `andWhere` per truthy filter.
     * The source's second filter names the column `bookmark.doid`, the entity's field
     * is `doId`; this models the evidently intended comparison with `doId`.
     */
    method SearchBookmarks(q: SearchDto.BookmarkSearchDto) returns (resp: Response)
      requires Valid()
      ensures SearchOutcome(State(), q, resp)
      ensures !NonEmpty(q.userId) && !NonEmpty(q.doid) ==> resp.payload.matches == rows.Values
    {
      var userFilter: Option<string> := None;
      var doIdFilter: Option<string> := None;
      if NonEmpty(q.userId) {
        userFilter := q.userId;
      }
      if NonEmpty(q.doid) {
        doIdFilter := q.doid;
      }
      var matches := set id | id in rows && Matches(rows[id], userFilter, doIdFilter) :: rows[id];
      resp := Response(200, BookmarksSearched, Found(matches));
    }

    /**
     * `getAllBookmarks`: `find({ where: { userId }, order: { createdAt: 'DESC' } })`.
     * The loop is the database's evaluation of the query: it visits every row once and
     * places each row of the user into the newest-first result.
     */
    method GetAllBookmarks(userId: string) returns (resp: Response)
      requires Valid()
      ensures ListOutcome(State(), userId, resp)
    {
      var bookmarks: seq<Bookmark> := [];
      var todo := rows.Keys;
      while todo != {}
        invariant todo <= rows.Keys
        invariant NewestFirst(bookmarks)
        invariant forall x :: x in bookmarks ==>
          x.id in rows && rows[x.id] == x && x.id !in todo && SameUuid(x.userId, userId)
        invariant forall id :: id in rows && id !in todo && SameUuid(rows[id].userId, userId) ==> rows[id] in bookmarks
        decreases |todo|
      {
        var id :| id in todo;
        var bookmark := rows[id];
        if SameUuid(bookmark.userId, userId) {
          forall x | x in bookmarks ensures x.createdAt != bookmark.createdAt {
            assert x.id != id;
          }
          InsertKeepsNewestFirst(bookmarks, bookmark);
          InsertMembers(bookmarks, bookmark);
          bookmarks := InsertNewestFirst(bookmarks, bookmark);
        }
        todo := todo - {id};
      }
      forall b | b in rows.Values && SameUuid(b.userId, userId) ensures b in bookmarks {
        var id :| id in rows && rows[id] == b;
      }
      resp := Response(200, UserBookmarksListed, Listing(bookmarks, |bookmarks|));
    }

    /** `checkBookmark`: read only; `isBookmarked` is `!!findOne(...)`. */
    method CheckBookmark(userId: string, doId: string) returns (resp: Response)
      requires Valid()
      ensures CheckOutcome(State(), userId, doId, resp)
    {
      var found := FindOne(Some(userId), Some(doId));
      resp := Response(200, StatusChecked, BookmarkStatus(found.Some?));
    }
  }
}
