/** The input of the bookmark-status check (src/bookmark/dto/bookmark-check.dto.ts). */
module CheckDto {
  import opened Wrappers
  import opened Validators

  datatype BookmarkCheckDto = BookmarkCheckDto(userId: Option<string>, doId: Option<string>)

  /** `new BookmarkCheckDto(partial)`: exactly the supplied fields are set, to the supplied values. */
  function FromPartial(partial: map<string, string>): (d: BookmarkCheckDto)
    ensures d.userId.Some? <==> "userId" in partial
    ensures d.userId.Some? ==> d.userId.value == partial["userId"]
    ensures d.doId.Some? <==> "doId" in partial
    ensures d.doId.Some? ==> d.doId.value == partial["doId"]
  {
    BookmarkCheckDto(Lookup(partial, "userId"), Lookup(partial, "doId"))
  }

  /** `userId` is required and a UUID; `doId` is required and a content id. */
  predicate Valid(d: BookmarkCheckDto) {
    && NonEmpty(d.userId) && IsUuidShape(d.userId.value)
    && NonEmpty(d.doId) && IsContentId(d.doId.value)
  }

  /** The messages of the rules `d` breaks. */
  function Errors(d: BookmarkCheckDto): (errs: set<string>)
    ensures errs == {} <==> Valid(d)
    ensures UserIdRequired in errs <==> !NonEmpty(d.userId)
    ensures DoIdRequired in errs <==> !NonEmpty(d.doId)
    ensures errs <= {UserIdRequired, UserIdNotUuid, DoIdRequired, DoIdNotContentId}
  {
    RequiredUuidErrors(d.userId) + RequiredContentIdErrors(d.doId)
  }
}
