/** Shared vocabulary of the controllers: optional values (C# null), the HTTP
    answers an action can give, and the claims of the authenticated caller. */
module Common {

  /** A value that may be absent; `None` stands for C#'s null. */
  datatype Option<+T> = None | Some(value: T)

  /** `string.IsNullOrEmpty` on a nullable string. */
  predicate IsNullOrEmpty(s: Option<string>)
  {
    s.None? || s.value == ""
  }

  /** Why an action answered 400 Bad Request. */
  datatype Reason =
    | EmptyCompanyId      // CompanyId is null or empty
    | RatingOutOfRange    // rating outside 1..5
    | TooManyImages       // more than 5 images on one review
    | MissingImage        // no image file on a gallery upload
    | ImageLimitReached   // the company already has 15 gallery images
    | UploadFailed        // the storage did not give back a URL

  /** The result of a controller action (an `IActionResult`). */
  datatype Response<+T> =
    | Ok(value: T)
    | BadRequest(reason: Reason)
    | Unauthorized
    | NotFound
    | Forbid

  /** The claims of the caller that the actions read: `ClaimTypes.NameIdentifier`
      and `ClaimTypes.Name`, each possibly missing. */
  datatype Claims = Claims(nameIdentifier: Option<string>, name: Option<string>)

  /** The caller's user id as the actions accept it: the NameIdentifier claim
      when it is present and non-empty, and nothing otherwise (the actions then
      answer 401). */
  function UserId(user: Claims): (id: Option<string>)
    ensures id.Some? <==> !IsNullOrEmpty(user.nameIdentifier)
    ensures id.Some? ==> id == user.nameIdentifier && id.value != ""
  {
    if IsNullOrEmpty(user.nameIdentifier) then None else user.nameIdentifier
  }
}
