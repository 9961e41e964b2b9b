/**
 * The field rules the four bookmark DTOs are built from (class-validator's
 * `IsNotEmpty`, `IsUUID` and `Matches(/^do_\d+$/)`), as predicates on strings.
 */
module Validators {
  import opened Wrappers

  // The messages the DTOs attach to their rules.
  const UserIdRequired := "User ID is required"
  const UserIdNotUuid := "User ID must be a valid UUID"
  const DoIdRequired := "Content ID (doId) is required"
  const DoIdNotContentId := "Content ID must start with 'do_' followed by numbers"

  /** `\d` of a JavaScript regular expression without the `u` flag: ASCII digits only. */
  predicate IsDigit(c: char) {
    '0' <= c <= '9'
  }

  predicate IsHexDigit(c: char) {
    IsDigit(c) || 'a' <= c <= 'f' || 'A' <= c <= 'F'
  }

  /**
   * `^do_\d+$`: the prefix "do_", then at least one ASCII digit, then the end of the
   * string (JavaScript's `$` without the `m` flag matches only at the very end).
   */
  predicate IsContentId(s: string) {
    |s| > 3 && s[..3] == "do_" && forall i :: 3 <= i < |s| ==> IsDigit(s[i])
  }

  predicate IsHyphenPosition(i: int) {
    i == 8 || i == 13 || i == 18 || i == 23
  }

  /**
   * The 8-4-4-4-12 shape of a UUID: 36 characters, hyphens at positions 8, 13, 18
   * and 23, hexadecimal digits (either case) everywhere else. The version and
   * variant nibbles that `IsUUID` also inspects are not part of this shape.
   */
  predicate IsUuidShape(s: string) {
    |s| == 36 &&
    forall i :: 0 <= i < 36 ==> if IsHyphenPosition(i) then s[i] == '-' else IsHexDigit(s[i])
  }

  /**
   * A field that is supplied and not the empty string. This is both class-validator's
   * `IsNotEmpty` on a string field and JavaScript truthiness of a `string | undefined`,
   * which the controller and the adapter test with `!x` and `if (x)`.
   */
  predicate NonEmpty(o: Option<string>) {
    o.Some? && o.value != ""
  }

  /** `@IsNotEmpty() @IsUUID()` on a field: the messages of the rules the value breaks. */
  function RequiredUuidErrors(o: Option<string>): (errs: set<string>)
    ensures errs == {} <==> NonEmpty(o) && IsUuidShape(o.value)
    ensures UserIdRequired in errs <==> !NonEmpty(o)
    ensures errs <= {UserIdRequired, UserIdNotUuid}
  {
    (if NonEmpty(o) then {} else {UserIdRequired})
    + (if o.Some? && IsUuidShape(o.value) then {} else {UserIdNotUuid})
  }

  /** `@IsNotEmpty() @Matches(/^do_\d+$/)` on a field. */
  function RequiredContentIdErrors(o: Option<string>): (errs: set<string>)
    ensures errs == {} <==> NonEmpty(o) && IsContentId(o.value)
    ensures DoIdRequired in errs <==> !NonEmpty(o)
    ensures errs <= {DoIdRequired, DoIdNotContentId}
  {
    (if NonEmpty(o) then {} else {DoIdRequired})
    + (if o.Some? && IsContentId(o.value) then {} else {DoIdNotContentId})
  }

  /**
   * `@IsOptional() @IsUUID()`: an absent value passes; a supplied one, the empty string
   * included, must be UUID-shaped.
   */
  function OptionalUuidErrors(o: Option<string>): (errs: set<string>)
    ensures errs == {} <==> (o.Some? ==> IsUuidShape(o.value))
    ensures errs <= {UserIdNotUuid}
  {
    if o.None? || IsUuidShape(o.value) then {} else {UserIdNotUuid}
  }

  /** `@IsOptional() @Matches(/^do_\d+$/)`. */
  function OptionalContentIdErrors(o: Option<string>): (errs: set<string>)
    ensures errs == {} <==> (o.Some? ==> IsContentId(o.value))
    ensures errs <= {DoIdNotContentId}
  {
    if o.None? || IsContentId(o.value) then {} else {DoIdNotContentId}
  }

  /** No string has both shapes: position 8 is a hyphen in a UUID and a digit in a content id. */
  lemma UuidIsNeverContentId(s: string)
    requires IsUuidShape(s)
    ensures !IsContentId(s)
  {
    assert IsHyphenPosition(8) && s[8] == '-';
    assert !IsDigit(s[8]);
  }

  /** A content id is never empty, so `Matches` alone already implies `IsNotEmpty`. */
  lemma ContentIdIsNonEmpty(s: string)
    requires IsContentId(s)
    ensures NonEmpty(Some(s))
  {
  }

  /** The example values of the DTOs' API documentation have the required shapes. */
  lemma DocumentedExamplesAreValid()
    ensures IsUuidShape("123e4567-e89b-12d3-a456-426614174000")
    ensures IsContentId("do_2143394843223982081867")
    ensures !IsContentId("do_") && !IsContentId("do_12a") && !IsContentId("DO_12")
  {
    var u := "123e4567-e89b-12d3-a456-426614174000";
    forall i | 0 <= i < 36
      ensures if IsHyphenPosition(i) then u[i] == '-' else IsHexDigit(u[i])
    {
    }
    assert "do_12a"[5] == 'a';
    assert "DO_12"[..3] != "do_" by { assert "DO_12"[..3][0] == 'D'; }
  }
}
