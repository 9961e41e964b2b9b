/** The body of `PATCH /bookmark/update/:bookmarkId` (src/bookmark/dto/bookmark-update.dto.ts). */
module UpdateDto {
  import opened Wrappers
  import opened Validators

  /** `updatedBy` has no rule: the controller fills it in before the adapter runs. */
  datatype BookmarkUpdateDto = BookmarkUpdateDto(doId: Option<string>, updatedBy: Option<string>)

  /** `new BookmarkUpdateDto(partial)`: only the supplied fields are set, the others stay absent. */
  function FromPartial(partial: map<string, string>): (d: BookmarkUpdateDto)
    ensures d.doId.Some? <==> "doId" in partial
    ensures d.doId.Some? ==> d.doId.value == partial["doId"]
    ensures d.updatedBy.Some? <==> "updatedBy" in partial
    ensures d.updatedBy.Some? ==> d.updatedBy.value == partial["updatedBy"]
  {
    BookmarkUpdateDto(Lookup(partial, "doId"), Lookup(partial, "updatedBy"))
  }

  /** `doId` is `IsOptional`; when supplied it must be a content id. */
  predicate Valid(d: BookmarkUpdateDto) {
    d.doId.Some? ==> IsContentId(d.doId.value)
  }

  /** The messages of the rules `d` breaks. */
  function Errors(d: BookmarkUpdateDto): (errs: set<string>)
    ensures errs == {} <==> Valid(d)
    ensures d.doId.None? ==> errs == {}
    ensures errs <= {DoIdNotContentId}
  {
    OptionalContentIdErrors(d.doId)
  }
}
