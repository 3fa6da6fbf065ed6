# Company reviews and gallery images: a Dafny model

This project models the review and media lifecycle of a small ASP.NET company
review service. Signed-in users post a review of a company. A review carries a
comment, a 1..5 rating and up to five images. Users can update and delete their
own reviews, and list reviews by company or by author. A company also has a
gallery of at most 15 images. A rating endpoint reports how many reviews a
company has and their mean rating, rounded to one decimal. Images live in a
remote storage. The storage service uploads a file and gives back a URL. It
deletes an object by the public id it derives from that URL.

Modules, one per part of the program:

- `Common`: C# null as `Option`, the controller answers as `Response`, and the
  caller's claims with the user-id rule the actions share.
- `PublicId`: the string work of the storage service's `ExtractPublicId`.
  The .NET primitives it uses (`Split`, `Join`, `LastIndexOf`,
  `Path.GetExtension`, `string.Replace`) are modelled with .NET's edge cases.
- `FileUpload`: the `FileUploadService` class. The remote storage is an oracle:
  `cloud(n)` is its reply to the n-th upload. A ghost log records every call
  the controllers make and every request that reaches the storage.
- `Models`: the `Review` and `Image` rows.
- `Reviews`: the `ReviewsController` class over the Reviews table, a map from
  id to row. Its upload and delete loops are `for` loops with invariants.
- `Images`: the `ImagesController` class over the Images table. It carries the
  15-per-company quota as a class invariant.
- `CompanyRatings`: the pure rating aggregator over the rows the query returns.
  The mean is exact and expressed in tenths. It is rounded to nearest, ties to
  even, as `Math.Round(x, 1)` does.

The defect found in the code, with its two symptoms, is described under "Findings". It is
modelled as written and next to its correction, and the rest of the model
uses the corrected behaviour.

## Model

| member | source | states |
|---|---|---|
| Common.UserId | Controller/ReviewsController.cs:36-38 | The caller's id is accepted exactly when the NameIdentifier claim is present and non-empty, and it is that claim. |
| Reviews.Validate | Controller/ReviewsController.cs:27-34 | A request is valid iff its company id is non-empty, its rating is within 1..5 and it has at most 5 images. The first broken rule is reported, in source order: an empty company id, else a rating out of range, else more than 5 images. |
| Reviews.IsReviewOwner | Controller/ReviewsController.cs:112 | A caller may change or delete a review exactly when the review's user id is the caller's id (also line 155). |
| Reviews.Kept | Controller/ReviewsController.cs:41-52 | The kept URLs are non-empty and no more than the uploads. Every usable upload result is kept. Every kept URL is the result of a successful upload. |
| Reviews.KeptOne | Controller/ReviewsController.cs:46-50 | One upload call keeps its URL exactly when it returned a non-empty one. |
| Reviews.KeptAppend | Controller/ReviewsController.cs:44-51 | The URLs kept from two runs of uploads are those of the first run followed by those of the second. With KeptOne this fixes the order: each upload adds only its own URL, at the end. |
| Reviews.KeptAll | Controller/ReviewsController.cs:44-51 | When every upload succeeds, the i-th kept URL is the i-th upload's result, and none is dropped. |
| Reviews.DeleteCalls | Controller/ReviewsController.cs:118-121 | One delete call per URL, the i-th for the i-th URL. |
| Reviews.ReviewsController.UploadEach | Controller/ReviewsController.cs:44-51 | One upload call per file, in file order, with nothing else logged. The result is the usable URLs of those calls. If the storage accepts everything and no file is empty, every call succeeds. |
| Reviews.ReviewsController.DeleteEach | Controller/ReviewsController.cs:118-121 | The log grows by exactly one delete per URL, in list order. |
| Reviews.ReviewsController.PostReview | Controller/ReviewsController.cs:22-69 | An invalid request is refused before the caller's id is checked. A refused request logs no call and stores nothing. On success, one upload runs per image, in order. The new row under a fresh id holds the kept URLs, the request's comment, rating and company, and the caller's id and name. No other row changes. The store stays well formed, including at most 5 URLs per review. |
| Reviews.ReviewsController.GetReviews | Controller/ReviewsController.cs:73-82 | An empty company id gives BadRequest. Otherwise the result is exactly the stored reviews of that company. |
| Reviews.ReviewsController.GetUserReviews | Controller/ReviewsController.cs:87-97 | A caller without an id gets Unauthorized. Otherwise the result is exactly the caller's own stored reviews. |
| Reviews.ReviewsController.DeleteReview | Controller/ReviewsController.cs:102-128 | Unauthorized, NotFound and Forbid come in that order and change neither the store nor the call log. The author's delete logs one delete per stored URL, in order, then removes exactly that row. |
| Reviews.ReviewsController.UpdateReview | Controller/ReviewsController.cs:133-191 | Validation, Unauthorized, NotFound and Forbid leave store and log unchanged. The author's update overwrites comment, rating and company. With no new images the URL list and the log stay as they were. With new images, every old URL is deleted first, then one upload runs per new file, and the list becomes the kept new URLs. |
| Reviews.PostThenDelete | Controller/ReviewsController.cs:41-128 | On any well-formed controller whose storage accepts every upload, a valid review posted with non-empty files and then deleted by its author: the storage log grows by exactly the uploads followed by the deletes, one upload per file with the i-th URL kept from the i-th upload, one delete per kept URL in the same order. The table ends as it started and only the id counter has moved on. |
| Reviews.PostAccepted | Controller/ReviewsController.cs:22-69 | Under the same conditions, posting adds exactly the caller's new row under the next id, logs only the uploads, and keeps one URL per file in order. |
| Images.ImagesOfCompany | Controller/ImagesController.cs:72-74 | Exactly the images of the company, with their stored values. |
| Images.CompanyImageCount | Controller/ImagesController.cs:39-41 | The number of the company's images, never more than the images overall. |
| Models.ReviewsOfCompany | Controller/ReviewsController.cs:78-80 | Exactly the reviews of the company, with their stored values. |
| Images.CountAfterAdd | Controller/ImagesController.cs:39-41 | Adding an image under a new id raises its company's count by one and no other company's count. |
| Images.CountAfterRemove | Controller/ImagesController.cs:92 | Removing an image never raises any company's count. |
| Images.AddKeepsQuota | Controller/ImagesController.cs:43-60 | Adding to a company below 15 keeps every company within 15. |
| Images.RemoveKeepsQuota | Controller/ImagesController.cs:92 | Removing an image keeps every company within 15. |
| Images.ImagesController.UploadImage | Controller/ImagesController.cs:23-63 | The checks run in order: empty company, missing file, no caller id, then a company at 15 images. Each refusal happens before any upload and changes nothing. A failed upload stores nothing. On success the new row has the returned URL, the company and the caller's id. That company's count rises by one. No company ever exceeds 15 images. |
| Images.ImagesController.GetImages | Controller/ImagesController.cs:67-77 | An empty company id gives BadRequest. Otherwise the result is exactly that company's images. |
| Images.ImagesController.DeleteImage | Controller/ImagesController.cs:82-96 | A missing id gives NotFound with no storage call. Otherwise exactly one delete of that image's URL is logged and the row removed, whichever signed-in caller asks. |
| CompanyRatings.RoundHalfEven | Controller/CompanyRatingsController.cs:39 | The result is within half a unit of n/d, and exactly half a unit away only when it is even. |
| CompanyRatings.RoundedMeanUnique | Controller/CompanyRatingsController.cs:35-39 | At most one value is the mean rounded to a tenth with ties to even, so the reference definition fixes the answer. |
| CompanyRatings.RoundedMeanBetween | Controller/CompanyRatingsController.cs:35-39 | The rounded mean lies between any bounds the exact mean lies between. |
| CompanyRatings.CompanyRows | Controller/CompanyRatingsController.cs:26-28 | Exactly the rows of the company, and no more of them than rows overall. |
| CompanyRatings.RatingSum | Controller/CompanyRatingsController.cs:35 | The sum of the rows' ratings behind `Average`; its bounds and order independence are the lemmas below. |
| CompanyRatings.RatingSumBounds | Models/Review.cs:6 | Ratings within 1..5 sum to between one and five times their number. |
| CompanyRatings.GetCompanyRating | Controller/CompanyRatingsController.cs:19-47 | An empty id gives BadRequest. Otherwise the count is the number of the company's rows, and it is 0 iff the company has none, in which case the rating is 0.0. Otherwise the rating is the mean of its ratings rounded to a tenth, ties to even. |
| CompanyRatings.RatingWithinBounds | Controller/CompanyRatingsController.cs:35-39 | With all ratings within 1..5, a company with reviews gets a rating within 1.0..5.0. |
| CompanyRatings.StoredRatingWithinBounds | Controller/CompanyRatingsController.cs:26-39 | Rows read from the review controller's well-formed table always give a rating within 1.0..5.0. |
| CompanyRatings.RatingSumRemoveAt | Controller/CompanyRatingsController.cs:35 | Taking out one row takes its rating out of the sum. |
| CompanyRatings.RatingSumPermutation | Controller/CompanyRatingsController.cs:35 | The sum depends only on which rows there are, not on their order. |
| CompanyRatings.CompanyRowsMultiset | Controller/CompanyRatingsController.cs:26-28 | A row occurs among the company's rows as often as among all rows if it belongs to the company, and never otherwise. |
| CompanyRatings.RatingIndependentOfOrder | Controller/CompanyRatingsController.cs:26-46 | The answer does not depend on the order the database returns the rows in. |
| CompanyRatings.ExampleFourFiveThree | Controller/CompanyRatingsController.cs:35-46 | Ratings 4, 5 and 3 give 4.0 from 3 reviews. |
| CompanyRatings.ExampleRounding | Controller/CompanyRatingsController.cs:26-46 | Ratings 4, 4 and 3, plus a review of another company, give 3.7 from 3 reviews. |
| CompanyRatings.ExampleTiesToEven | Controller/CompanyRatingsController.cs:39 | A mean of 4.25 gives 4.2 and 4.75 gives 4.8. |
| FileUpload.ReplyUrl | Services/FileUploadService.cs:37-40 | A URL comes back iff the storage status is OK, and it is the secure URL. |
| FileUpload.FileUploadService.UploadFile | Services/FileUploadService.cs:20-41 | A missing or empty file gives null without any storage request. Otherwise exactly one upload reaches the storage, and the result is the storage's reply URL when the status is OK and null otherwise. |
| FileUpload.FileUploadService.DeleteFile | Services/FileUploadService.cs:43-53 | An empty string reaches no storage. Otherwise exactly one destroy request is sent, for the public id derived from the URL. |
| PublicId.StartsWith | Services/FileUploadService.cs:59 | The string begins with the prefix, character by character. |
| PublicId.IndexOf | Services/FileUploadService.cs:62 | The first position of the separator. |
| PublicId.LastIndexOf | Services/FileUploadService.cs:64 | The last position of the character, or -1 iff it does not occur. |
| PublicId.Split | Services/FileUploadService.cs:62 | At least one piece, none containing the separator. |
| PublicId.JoinSplit | Services/FileUploadService.cs:62 | Joining the pieces of a split with the separator gives the string back. |
| PublicId.SplitJoin | Services/FileUploadService.cs:62 | Splitting a join of separator-free pieces gives the pieces back. |
| PublicId.JoinAppend | Services/FileUploadService.cs:62 | Joining two non-empty lists of pieces is joining each and putting the separator between. |
| PublicId.SplitAround | Services/FileUploadService.cs:62 | A separator splits a string into the pieces of either side. |
| PublicId.GetExtension | Services/FileUploadService.cs:70 | The extension is empty iff the path has no '.', its last '.' is the last character, or a '/' follows that '.'. Otherwise it is the path from its last '.' to the end. |
| PublicId.StripExtension | Services/FileUploadService.cs:63-66 | The name is cut at its last '.', only when that '.' is past the first character. What is cut off contains no other '.'. |
| PublicId.ExtractPublicId | Services/FileUploadService.cs:56-74 | A string not starting with "http" is returned unchanged. A path of at most two pieces gives its last piece without extension. The method fails exactly when the path has more than two pieces and the stripped name has no extension left. Otherwise it returns the last two pieces joined by "/" with that extension replaced by "". |
| PublicId.Replace | Services/FileUploadService.cs:70 | `string.Replace`: an empty search string is refused (the `ArgumentException` case, which `ExtractPublicId` reports as an error before calling it). A string without the search string's first character comes back unchanged, and replacing with "" never lengthens the string. |
| PublicId.ReplaceAbsent | Services/FileUploadService.cs:70 | `Replace` leaves a string with no occurrence of the old value unchanged. |
| PublicId.ReplaceFirst | Services/FileUploadService.cs:70 | `Replace` works from left to right: the text before the first occurrence is kept, that occurrence is replaced, and the rest is replaced in turn. |
| PublicId.InnerExtension | Services/FileUploadService.cs:63-70 | For a file "stem.mid.ext", the extension removed is ".mid", the inner one. |
| PublicId.AsWrittenDropsInnerExtension | Services/FileUploadService.cs:62-70 | For every path ending in "folder/stem.mid.ext" whose folder, stem, `mid` and `ext` contain no '.' (`mid` non-empty, without '/', and not beginning `ext`), the extraction as written returns "folder/stem.ext". |
| PublicId.AsWrittenDoubleExtensionExample | Services/FileUploadService.cs:62-70 | A URL whose path is `/a/folder/photo.tar.gz` gives `folder/photo.gz` as written, and `folder/photo.tar` under the corrected extraction. |
| PublicId.IntendedPublicId | Services/FileUploadService.cs:56-74 | The corrected extraction. It agrees with the original wherever the original does not take the more-than-two-pieces branch, and it never fails. |
| PublicId.StoredPathPieces | Services/FileUploadService.cs:62-63 | The last two pieces of a stored path are its folder and its file name. |
| PublicId.StemOfStoredFile | Services/FileUploadService.cs:64-66 | A file name "stem.ext" whose extension has no '.' strips to its stem. |
| PublicId.IntendedRecoversPublicId | Services/FileUploadService.cs:69-70 | For every stored URL, the corrected extraction gives "folder/stem". |
| PublicId.AsWrittenRejectsStoredUrl | Services/FileUploadService.cs:69-70 | For every stored URL whose stem has no '.', the extraction as written fails. |
| PublicId.AsWrittenRejectsCloudinaryUrl | Services/FileUploadService.cs:69-70 | The secure URL `https://res.cloudinary.com/demo/image/upload/v1/shop/photo.jpg` fails as written. The corrected extraction gives `shop/photo` for it. |

## Left out

- ASP.NET `ModelState` validation from the DTO attributes is not modelled. It includes the required, non-null `Comment` and `ReviewDto` being required at all. Only the checks written in the action bodies are modelled.
- Null strings other than the optional claims, the review `Images` list and the gallery `Image` are not modelled. Strings are plain sequences of characters.
- `Uri` parsing, and the `UriFormatException` it can raise, is not modelled. The service takes `AbsolutePath` from its `absolutePath` parameter.
- `string.StartsWith("http")` and `LastIndexOf(".")` are culture-sensitive in .NET. They are modelled as ordinal comparisons.
- `async`/`await` and concurrent requests are not modelled. In particular, the count-then-insert race on the gallery quota is not captured. Each request runs alone, and the 15-image quota is proved only under that assumption.
- The database is a map from id to row. `SaveChangesAsync` is an atomic commit. Listing queries return maps, so the row order of `ToListAsync` is not modelled. The rating aggregator takes the rows as a list and is proved independent of their order.
- The Review entity is updated in place by `UpdateReview`. Here the row is a value replaced in the map, so aliasing of the tracked entity is not modelled.
- `DateTime.UtcNow` is the `now` parameter.
- The Cloudinary SDK is not modelled. Its replies are the `cloud` oracle. Files are a name and a length. Upload parameters such as the folder and unique names are not modelled.
- Exceptions thrown by the Cloudinary SDK in the middle of the upload or delete loops are not modelled. A storage delete is taken to always complete, since `DeleteFileAsync` reports nothing back.
- FileUpload.FileUploadService.DeleteFile: deletes under the corrected public id (`PublicId.IntendedPublicId`), not under the as-written `ExtractPublicId`. As written, `ExtractPublicId` throws `ArgumentException` at Services/FileUploadService.cs:70 for every URL whose file name has one extension, before any request reaches the storage. Nothing catches it. So `DeleteReview` and `DeleteImage` end with an error before the row is removed, and `UpdateReview` with new images on a review that has images saves nothing. For a file name with two extensions, as written the destroy goes to the `Replace` result (`PublicId.AsWrittenDropsInnerExtension`) instead.
- `[Authorize]` challenges an anonymous caller with the default challenge scheme (Google sign-in, Program.cs:49) before any action runs. The model's `Unauthorized` covers a signed-in caller whose claims lack a NameIdentifier. Images.ImagesController.DeleteImage takes no caller, so it stands for any caller that passed `[Authorize]`.
- Reviews.ReviewsController.DeleteReview: the non-author answer is modelled as `Forbid`. As written, `Forbid(message)` at Controller/ReviewsController.cs:113 passes the message as an authentication scheme name. No such scheme is registered, so the response is a server error (`InvalidOperationException`), not a 403. The store and the call log are untouched either way, as modelled.
- Reviews.ReviewsController.UpdateReview: the same holds for `Forbid(message)` at Controller/ReviewsController.cs:156.
- `Path.GetExtension` follows its Unix rules: only '/' ends the search for a '.', not '\\' or ':' as on Windows.
- CompanyRatings.GetCompanyRating: computes on exact integers, not on `double`. Binary rounding effects of `Average` and `Math.Round` on means such as x.x5 are not captured.
- The `Message` text of the empty-rating answer and every error text are not modelled. Errors are kinds of `Reason`.
- Models/Image.cs is not part of this model. The Image row has the fields the gallery controller sets and reads.
- The authentication controller, program start-up and database wiring are framework configuration with no logic of their own.

## Findings

| source | as written | input that shows it | evidently intended | confidence | as-written member | corrected member |
|---|---|---|---|---|---|---|
| Services/FileUploadService.cs:69-70 | For a path of more than two pieces, the extension to remove is taken from the already stripped file name. For an ordinary one-extension file that is "", and `string.Replace` throws `ArgumentException` on an empty string. Every delete of a stored image then fails, and the review or image row is not removed. | `https://res.cloudinary.com/demo/image/upload/v1/shop/photo.jpg` (path `/demo/image/upload/v1/shop/photo.jpg`) | the public id `shop/photo`: the folder piece and the file name without its extension | not executed | PublicId.AsWrittenRejectsCloudinaryUrl | PublicId.IntendedRecoversPublicId |
| Services/FileUploadService.cs:69-70 | For a file name with two extensions the stripped name still has one, so no exception is raised, but `Replace` removes the inner extension from "folder/name" instead of the outer one. | `https://x/a/folder/photo.tar.gz` (path `/a/folder/photo.tar.gz`) | the public id `folder/photo.tar`: the folder piece and the file name without its last extension | not executed | PublicId.AsWrittenDoubleExtensionExample | PublicId.IntendedRecoversPublicId |

The storage service in `FileUpload` deletes under the corrected public id
(`PublicId.IntendedPublicId`).
