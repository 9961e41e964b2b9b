/**
 * `BookmarkController` (src/bookmark/bookmark.controller.ts): the guards and input
 * rewrites that run before the adapter is called. A guard that fires answers 400
 * and leaves the table as it was; otherwise the adapter method runs on the
 * (possibly rewritten) input, so the outcome is that method's outcome.
 */
module Controller {
  import opened Wrappers
  import opened Validators
  import opened Uuid
  import opened BookmarkTable
  import opened PostgresAdapter
  import CreateDto
  import UpdateDto
  import SearchDto

  /** The body after `if (!createdBy) createdBy = userId`. */
  function WithDefaultCreatedBy(body: CreateDto.BookmarkCreateDto): CreateDto.BookmarkCreateDto {
    if NonEmpty(body.createdBy) then body else body.(createdBy := body.userId)
  }

  class BookmarkController {
    const adapter: PostgresBookmarkService

    constructor (adapter: PostgresBookmarkService)
      ensures this.adapter == adapter
    {
      this.adapter := adapter;
    }

    /** `GET /bookmark/read`: a missing or empty userId is refused before the table is read. */
    method GetAllBookmarks(query: SearchDto.BookmarkSearchDto) returns (resp: Response)
      requires adapter.Valid()
      ensures !NonEmpty(query.userId) ==> resp == Response(400, UserIdRequired, NoPayload)
      ensures NonEmpty(query.userId) ==> ListOutcome(adapter.State(), query.userId.value, resp)
    {
      if !NonEmpty(query.userId) {
        resp := Response(400, UserIdRequired, NoPayload);
        return;
      }
      resp := adapter.GetAllBookmarks(query.userId.value);
    }

    /**
     * `POST /bookmark/create`: createdBy defaults to userId when missing or empty; equal
     * userId and doId (two absent fields included, as `undefined === undefined`) are
     * refused with no write; otherwise the adapter creates with the rewritten body.
     */
    method CreateBookmark(body: CreateDto.BookmarkCreateDto, freshId: string) returns (resp: Response)
      requires adapter.Valid()
      requires Canon(freshId) !in adapter.rows
      modifies adapter
      ensures adapter.Valid()
      ensures body.userId == body.doId ==>
        resp == Response(400, SameIds, NoPayload) && adapter.State() == old(adapter.State())
      ensures body.userId != body.doId ==>
        CreateOutcome(old(adapter.State()), WithDefaultCreatedBy(body), freshId, resp, adapter.State())
    {
      var dto := body;
      if !NonEmpty(dto.createdBy) {
        dto := dto.(createdBy := dto.userId);
      }
      if dto.userId == dto.doId {
        resp := Response(400, SameIds, NoPayload);
        return;
      }
      resp := adapter.CreateBookmark(dto, freshId);
    }

    /**
     * `PATCH /bookmark/update/:bookmarkId`: a missing or empty `tenantid` header is
     * refused with no write; otherwise updatedBy is overwritten with the logged-in
     * user's id, whatever the body said, and the adapter updates.
     */
    method UpdateBookmark(tenantId: Option<string>, bookmarkId: string, loginUserId: string, body: UpdateDto.BookmarkUpdateDto)
      returns (resp: Response)
      requires adapter.Valid()
      modifies adapter
      ensures adapter.Valid()
      ensures !NonEmpty(tenantId) ==>
        resp == Response(400, MissingTenantId, NoPayload) && adapter.State() == old(adapter.State())
      ensures NonEmpty(tenantId) ==>
        UpdateOutcome(old(adapter.State()), bookmarkId, body.(updatedBy := Some(loginUserId)), resp, adapter.State())
    {
      if !NonEmpty(tenantId) {
        resp := Response(400, MissingTenantId, NoPayload);
        return;
      }
      var dto := body.(updatedBy := Some(loginUserId));
      resp := adapter.UpdateBookmark(bookmarkId, dto);
    }

    /**
     * `DELETE /bookmark/delete`: the body's userId and doId, each possibly absent, go
     * unchanged to delete-by-pair.
     */
    method DeleteBookmark(userId: Option<string>, doId: Option<string>) returns (resp: Response)
      requires adapter.Valid()
      modifies adapter
      ensures adapter.Valid()
      ensures DeleteByPairOutcome(old(adapter.State()), userId, doId, resp, adapter.State())
    {
      resp := adapter.DeleteBookmarkByUserAndContent(userId, doId);
    }
  }

  /** A body that passes the create DTO's rules never trips the userId == doId guard. */
  lemma SameIdsGuardUnreachable(body: CreateDto.BookmarkCreateDto)
    requires CreateDto.Valid(body)
    ensures body.userId != body.doId
  {
    UuidIsNeverContentId(body.userId.value);
  }

  /**
   * A row inserted through the controller always records a creator: the body's
   * createdBy when it is non-empty, the userId otherwise.
   */
  lemma CreatedRowRecordsCreator(t: Table, body: CreateDto.BookmarkCreateDto, freshId: string, resp: Response, t': Table)
    requires CreateOutcome(t, WithDefaultCreatedBy(body), freshId, resp, t')
    requires resp.status == 201
    ensures Canon(freshId) in t'.rows && t'.rows[Canon(freshId)].createdBy.Some?
    ensures NonEmpty(body.createdBy) ==> t'.rows[Canon(freshId)].createdBy == body.createdBy
    ensures !NonEmpty(body.createdBy) ==>
      t'.rows[Canon(freshId)].createdBy == body.userId && SameUuid(t'.rows[Canon(freshId)].userId, body.userId.value)
  {
  }

  /** After an update through the controller the row's updatedBy is the logged-in user. */
  lemma UpdateStampsLoginUser(t: Table, bookmarkId: string, body: UpdateDto.BookmarkUpdateDto, loginUserId: string,
                              resp: Response, t': Table)
    requires UpdateOutcome(t, bookmarkId, body.(updatedBy := Some(loginUserId)), resp, t')
    requires Canon(bookmarkId) in t.rows
    ensures resp.status == 200 && resp.payload.One? && resp.payload.row.updatedBy == Some(loginUserId)
    ensures t'.rows[Canon(bookmarkId)].updatedBy == Some(loginUserId)
  {
  }
}
