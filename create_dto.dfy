/** The body of `POST /bookmark/create` (src/bookmark/dto/bookmark-create.dto.ts). */
module CreateDto {
  import opened Wrappers
  import opened Validators

  datatype BookmarkCreateDto = BookmarkCreateDto(
    userId: Option<string>,
    doId: Option<string>,
    createdBy: Option<string>)

  /** `new BookmarkCreateDto(partial)`: exactly the supplied fields are set, to the supplied values. */
  function FromPartial(partial: map<string, string>): (d: BookmarkCreateDto)
    ensures d.userId.Some? <==> "userId" in partial
    ensures d.userId.Some? ==> d.userId.value == partial["userId"]
    ensures d.doId.Some? <==> "doId" in partial
    ensures d.doId.Some? ==> d.doId.value == partial["doId"]
    ensures d.createdBy.Some? <==> "createdBy" in partial
    ensures d.createdBy.Some? ==> d.createdBy.value == partial["createdBy"]
  {
    BookmarkCreateDto(Lookup(partial, "userId"), Lookup(partial, "doId"), Lookup(partial, "createdBy"))
  }

  /**
   * `userId` is required and a UUID, `doId` is required and a content id; `createdBy`
   * is optional and carries no rule.
   */
  predicate Valid(d: BookmarkCreateDto) {
    && NonEmpty(d.userId) && IsUuidShape(d.userId.value)
    && NonEmpty(d.doId) && IsContentId(d.doId.value)
  }

  /**
   * The messages of the rules `d` breaks. Neither field is `IsOptional`, so an absent
   * field breaks both of its rules.
   */
  function Errors(d: BookmarkCreateDto): (errs: set<string>)
    ensures errs == {} <==> Valid(d)
    ensures UserIdRequired in errs <==> !NonEmpty(d.userId)
    ensures DoIdRequired in errs <==> !NonEmpty(d.doId)
    ensures errs <= {UserIdRequired, UserIdNotUuid, DoIdRequired, DoIdNotContentId}
  {
    RequiredUuidErrors(d.userId) + RequiredContentIdErrors(d.doId)
  }
}
