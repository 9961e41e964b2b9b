/** The query of `GET /bookmark/read` and of search (src/bookmark/dto/bookmark-search.dto.ts). */
module SearchDto {
  import opened Wrappers
  import opened Validators

  /** The content-id field is spelled `doid` here, unlike the entity's `doId`. */
  datatype BookmarkSearchDto = BookmarkSearchDto(userId: Option<string>, doid: Option<string>)

  /** `new BookmarkSearchDto(partial)`: exactly the supplied fields are set, to the supplied values. */
  function FromPartial(partial: map<string, string>): (d: BookmarkSearchDto)
    ensures d.userId.Some? <==> "userId" in partial
    ensures d.userId.Some? ==> d.userId.value == partial["userId"]
    ensures d.doid.Some? <==> "doid" in partial
    ensures d.doid.Some? ==> d.doid.value == partial["doid"]
  {
    BookmarkSearchDto(Lookup(partial, "userId"), Lookup(partial, "doid"))
  }

  /**
   * Both fields are `IsOptional`: an absent field passes, a supplied one (the empty
   * string included) must have its shape.
   */
  predicate Valid(d: BookmarkSearchDto) {
    && (d.userId.Some? ==> IsUuidShape(d.userId.value))
    && (d.doid.Some? ==> IsContentId(d.doid.value))
  }

  /** The messages of the rules `d` breaks. */
  function Errors(d: BookmarkSearchDto): (errs: set<string>)
    ensures errs == {} <==> Valid(d)
    ensures d == BookmarkSearchDto(None, None) ==> errs == {}
    ensures errs <= {UserIdNotUuid, DoIdNotContentId}
  {
    OptionalUuidErrors(d.userId) + OptionalContentIdErrors(d.doid)
  }
}
