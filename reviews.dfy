/** The review lifecycle (`ReviewsController`): create, update and delete a
    review with its attached images, and list reviews by company or by author.
    The Reviews table is the map `reviews`; the storage calls go through the
    shared `FileUploadService`, whose call log the contracts speak about. */
module Reviews {
  import opened Common
  import opened Models
  import opened FileUpload

  const MaxImagesPerReview := 5

  /** The form a create or update request carries (`ReviewDto`); `images` is
      `None` when the request has no Images list at all. */
  datatype ReviewDto = ReviewDto(comment: string, images: Option<seq<FormFile>>, rating: int, companyId: string)

  /** The image files a request brings: none when the list is null. */
  function NewImages(dto: ReviewDto): seq<FormFile>
  {
    if dto.images.Some? then dto.images.value else []
  }

  /** The in-action checks of `PostReview` (repeated in `UpdateReview`), in
      their order: the first rule the request breaks, or nothing when it
      breaks none. */
  function Validate(dto: ReviewDto): (r: Option<Reason>)
    ensures r.None? <==> dto.companyId != "" && 1 <= dto.rating <= 5 && |NewImages(dto)| <= MaxImagesPerReview
    ensures dto.companyId == "" ==> r == Some(EmptyCompanyId)
    ensures dto.companyId != "" && !(1 <= dto.rating <= 5) ==> r == Some(RatingOutOfRange)
    ensures dto.companyId != "" && 1 <= dto.rating <= 5 && |NewImages(dto)| > MaxImagesPerReview ==>
              r == Some(TooManyImages)
    ensures r.Some? ==> r.value == EmptyCompanyId || r.value == RatingOutOfRange || r.value == TooManyImages
  {
    if dto.companyId == "" then Some(EmptyCompanyId)
    else if dto.rating < 1 || dto.rating > 5 then Some(RatingOutOfRange)
    else if dto.images.Some? && |dto.images.value| > MaxImagesPerReview then Some(TooManyImages)
    else None
  }

  /** Only the author may change or delete a review (the ownership checks of
      `DeleteReview` and `UpdateReview`). */
  predicate IsReviewOwner(userId: string, review: Review)
  {
    review.userId == userId
  }

  /** An upload call that gave back a usable URL (neither null nor empty). */
  predicate Succeeded(c: Call)
  {
    c.Upload? && !IsNullOrEmpty(c.result)
  }

  /** The URLs a run of upload calls keeps: the usable results, in call
      order; a failed upload is skipped (the upload loops of `PostReview` and
      `UpdateReview`). */
  function Kept(added: seq<Call>): (urls: seq<string>)
    ensures |urls| <= |added|
    ensures forall u :: u in urls ==> u != ""
    ensures forall i :: 0 <= i < |added| && Succeeded(added[i]) ==> added[i].result.value in urls
    ensures forall u :: u in urls ==> exists i :: 0 <= i < |added| && Succeeded(added[i]) && added[i].result == Some(u)
  {
    if added == [] then []
    else
      var init, c := added[..|added| - 1], added[|added| - 1];
      assert forall i :: 0 <= i < |init| ==> init[i] == added[i];
      Kept(init) + (if Succeeded(c) then [c.result.value] else [])
  }

  /** A single call keeps its URL exactly when it succeeded. */
  lemma KeptOne(c: Call)
    ensures Kept([c]) == if Succeeded(c) then [c.result.value] else []
  {
    assert [c][..0] == [];
  }

  /** The URLs of two runs of calls are kept one run after the other: order
      is preserved, and each call contributes only its own URL. */
  lemma {:induction false} KeptAppend(a: seq<Call>, b: seq<Call>)
    ensures Kept(a + b) == Kept(a) + Kept(b)
    decreases |b|
  {
    if b == [] {
      assert a + b == a;
    } else {
      var init, c := b[..|b| - 1], b[|b| - 1];
      var last := if Succeeded(c) then [c.result.value] else [];
      assert Kept(a + b) == Kept(a + init) + last by {
        assert (a + b)[..|a + b| - 1] == a + init;
        assert (a + b)[|a + b| - 1] == c;
      }
      KeptAppend(a, init);
      assert Kept(b) == Kept(init) + last;
    }
  }

  /** When every upload succeeds, every URL is kept, in order. */
  lemma {:induction false} KeptAll(added: seq<Call>)
    requires AllSucceeded(added)
    ensures |Kept(added)| == |added|
    ensures forall i :: 0 <= i < |added| ==> Kept(added)[i] == added[i].result.value
  {
    if added != [] {
      var init := added[..|added| - 1];
      KeptAll(init);
      assert Kept(added) == Kept(init) + [added[|added| - 1].result.value];
    }
  }

  /** `added` is one upload call per file, in the order of `files`. */
  ghost predicate UploadsOf(added: seq<Call>, files: seq<FormFile>)
  {
    |added| == |files| && forall i :: 0 <= i < |added| ==> added[i].Upload? && added[i].file == Some(files[i])
  }

  /** Every call of the run is an upload that gave back a usable URL. */
  ghost predicate AllSucceeded(added: seq<Call>)
  {
    forall i :: 0 <= i < |added| ==> Succeeded(added[i])
  }

  /** No file is empty. */
  ghost predicate NonEmptyFiles(files: seq<FormFile>)
  {
    forall i :: 0 <= i < |files| ==> files[i].length > 0
  }

  /** Appending a call to the log appends it to every run that ends the log. */
  lemma RunStep(log: seq<Call>, n: nat, c: Call)
    requires n <= |log|
    ensures (log + [c])[..n] == log[..n]
    ensures (log + [c])[n..] == log[n..] + [c]
    ensures Kept(log[n..] + [c]) == Kept(log[n..]) + (if Succeeded(c) then [c.result.value] else [])
    ensures AllSucceeded(log[n..]) && Succeeded(c) ==> AllSucceeded(log[n..] + [c])
  {
    assert (log[n..] + [c])[..|log[n..]|] == log[n..];
  }

  /** An upload of the next file extends a run of uploads of the files before it. */
  lemma UploadsStep(run: seq<Call>, files: seq<FormFile>, i: nat, c: Call)
    requires i < |files|
    requires UploadsOf(run, files[..i])
    requires c.Upload? && c.file == Some(files[i])
    ensures UploadsOf(run + [c], files[..i + 1])
  {
  }

  /** One delete call per URL, in list order. */
  function DeleteCalls(urls: seq<string>): (calls: seq<Call>)
    ensures |calls| == |urls|
    ensures forall i :: 0 <= i < |urls| ==> calls[i] == Delete(urls[i])
  {
    if urls == [] then [] else DeleteCalls(urls[..|urls| - 1]) + [Delete(urls[|urls| - 1])]
  }

  /** What every stored review satisfies. */
  ghost predicate WellFormed(id: int, r: Review)
  {
    && r.id == id
    && r.companyId != ""
    && 1 <= r.rating <= 5
    && r.userId != ""
    && |r.imageUrls| <= MaxImagesPerReview
    && forall u :: u in r.imageUrls ==> u != ""
  }

  class ReviewsController {
    /** The Reviews table, by id. */
    var reviews: map<int, Review>
    /** The id the database gives the next new review. */
    var nextId: int
    const service: FileUploadService

    ghost predicate Valid()
      reads this
    {
      forall id :: id in reviews ==> id < nextId && WellFormed(id, reviews[id])
    }

    constructor (service: FileUploadService)
      ensures Valid() && this.service == service
      ensures reviews == map[] && nextId == 1
    {
      this.service := service;
      reviews := map[];
      nextId := 1;
    }

    /** The upload loop: one upload per file, in order, keeping the usable URLs. */
    method UploadEach(files: seq<FormFile>) returns (urls: seq<string>)
      modifies service
      ensures |service.calls| == |old(service.calls)| + |files|
      ensures service.calls[..|old(service.calls)|] == old(service.calls)
      ensures UploadsOf(service.calls[|old(service.calls)|..], files)
      ensures urls == Kept(service.calls[|old(service.calls)|..])
      ensures AlwaysAccepts(service.cloud) && NonEmptyFiles(files) ==> AllSucceeded(service.calls[|old(service.calls)|..])
    {
      ghost var before := service.calls;
      urls := [];
      for i := 0 to |files|
        invariant |service.calls| == |before| + i
        invariant service.calls[..|before|] == before
        invariant UploadsOf(service.calls[|before|..], files[..i])
        invariant urls == Kept(service.calls[|before|..])
        invariant AlwaysAccepts(service.cloud) && NonEmptyFiles(files) ==> AllSucceeded(service.calls[|before|..])
      {
        ghost var prev := service.calls;
        var url := service.UploadFile(Some(files[i]));
        RunStep(prev, |before|, Upload(Some(files[i]), url));
        UploadsStep(prev[|before|..], files, i, Upload(Some(files[i]), url));
        if !IsNullOrEmpty(url) {
          urls := urls + [url.value];
        }
      }
    }

    /** The delete loop: one delete per URL, in list order. */
    method DeleteEach(urls: seq<string>)
      modifies service
      ensures service.calls == old(service.calls) + DeleteCalls(urls)
    {
      for i := 0 to |urls|
        invariant service.calls == old(service.calls) + DeleteCalls(urls[..i])
      {
        service.DeleteFile(urls[i]);
        assert urls[..i + 1][..i] == urls[..i];
      }
      assert urls[..|urls|] == urls;
    }

    /** `PostReview`: validate, check the caller, upload the images (skipping
        failures), then store the review under a fresh id. */
    method PostReview(dto: ReviewDto, user: Claims, now: int) returns (resp: Response<Review>)
      requires Valid()
      modifies this, service
      ensures Valid()
      ensures Validate(dto).Some? ==> resp == BadRequest(Validate(dto).value)
      ensures Validate(dto).None? && UserId(user).None? ==> resp == Unauthorized
      ensures resp.Ok? <==> Validate(dto).None? && UserId(user).Some?
      ensures !resp.Ok? ==> reviews == old(reviews) && nextId == old(nextId) && unchanged(service)
      ensures resp.Ok? ==>
                var n := |old(service.calls)|;
                && |service.calls| >= n && service.calls[..n] == old(service.calls)
                && UploadsOf(service.calls[n..], NewImages(dto))
                && (AlwaysAccepts(service.cloud) && NonEmptyFiles(NewImages(dto)) ==> AllSucceeded(service.calls[n..]))
                && resp.value == Review(old(nextId), dto.comment, Kept(service.calls[n..]), dto.rating,
                                        dto.companyId, UserId(user).value, user.name, now)
                && old(nextId) !in old(reviews)
                && reviews == old(reviews)[old(nextId) := resp.value]
                && nextId == old(nextId) + 1
    {
      var invalid := Validate(dto);
      if invalid.Some? {
        return BadRequest(invalid.value);
      }
      var userId := UserId(user);
      if userId.None? {
        return Unauthorized;
      }
      var imageUrls := [];
      if dto.images.Some? && |dto.images.value| > 0 {
        imageUrls := UploadEach(dto.images.value);
      }
      var review := Review(nextId, dto.comment, imageUrls, dto.rating, dto.companyId, userId.value, user.name, now);
      reviews := reviews[nextId := review];
      nextId := nextId + 1;
      resp := Ok(review);
    }

    /** `GetReviews`: the reviews of one company; an empty id is refused. */
    function GetReviews(companyId: string): (r: Response<map<int, Review>>)
      reads this
      ensures r.BadRequest? <==> companyId == ""
      ensures companyId != "" ==> r.Ok?
      ensures r.Ok? ==> forall id :: id in r.value <==> id in reviews && reviews[id].companyId == companyId
      ensures r.Ok? ==> forall id :: id in r.value ==> r.value[id] == reviews[id]
    {
      if companyId == "" then BadRequest(EmptyCompanyId) else Ok(ReviewsOfCompany(reviews, companyId))
    }

    /** `GetUserReviews`: the caller's own reviews; no usable user id gives 401. */
    function GetUserReviews(user: Claims): (r: Response<map<int, Review>>)
      reads this
      ensures r.Unauthorized? <==> UserId(user).None?
      ensures UserId(user).Some? ==> r.Ok?
      ensures r.Ok? ==> forall id :: id in r.value <==> id in reviews && reviews[id].userId == UserId(user).value
      ensures r.Ok? ==> forall id :: id in r.value ==> r.value[id] == reviews[id]
    {
      var userId := UserId(user);
      if userId.None? then Unauthorized
      else Ok(map id | id in reviews && reviews[id].userId == userId.value :: reviews[id])
    }

    /** `DeleteReview`: only the author may delete; every attached URL is
        handed to the storage service, in order, before the row goes. */
    method DeleteReview(user: Claims, id: int) returns (resp: Response<()>)
      requires Valid()
      modifies this, service
      ensures Valid() && nextId == old(nextId)
      ensures UserId(user).None? ==> resp == Unauthorized
      ensures UserId(user).Some? && id !in old(reviews) ==> resp == NotFound
      ensures UserId(user).Some? && id in old(reviews) && !IsReviewOwner(UserId(user).value, old(reviews)[id]) ==>
                resp == Forbid
      ensures resp.Ok? <==> UserId(user).Some? && id in old(reviews) && IsReviewOwner(UserId(user).value, old(reviews)[id])
      ensures !resp.Ok? ==> reviews == old(reviews) && unchanged(service)
      ensures resp.Ok? ==>
                && service.calls == old(service.calls) + DeleteCalls(old(reviews)[id].imageUrls)
                && reviews == old(reviews) - {id}
    {
      var userId := UserId(user);
      if userId.None? {
        return Unauthorized;
      }
      if id !in reviews {
        return NotFound;
      }
      var review := reviews[id];
      if !IsReviewOwner(userId.value, review) {
        return Forbid;
      }
      if |review.imageUrls| > 0 {
        DeleteEach(review.imageUrls);
      }
      reviews := reviews - {id};
      resp := Ok(());
    }

    /** `UpdateReview`: only the author may update. Comment, rating and
        company are overwritten; the image list is kept as it is unless new
        images come, in which case every old URL is deleted first and the list
        is replaced by the usable URLs of the new uploads. */
    method UpdateReview(user: Claims, id: int, dto: ReviewDto) returns (resp: Response<Review>)
      requires Valid()
      modifies this, service
      ensures Valid() && nextId == old(nextId)
      ensures Validate(dto).Some? ==> resp == BadRequest(Validate(dto).value)
      ensures Validate(dto).None? && UserId(user).None? ==> resp == Unauthorized
      ensures Validate(dto).None? && UserId(user).Some? && id !in old(reviews) ==> resp == NotFound
      ensures (Validate(dto).None? && UserId(user).Some? && id in old(reviews) &&
               !IsReviewOwner(UserId(user).value, old(reviews)[id])) ==> resp == Forbid
      ensures resp.Ok? <==> Validate(dto).None? && UserId(user).Some? && id in old(reviews) &&
                            IsReviewOwner(UserId(user).value, old(reviews)[id])
      ensures !resp.Ok? ==> reviews == old(reviews) && unchanged(service)
      ensures resp.Ok? ==> reviews == old(reviews)[id := resp.value]
      ensures resp.Ok? && NewImages(dto) == [] ==>
                && service.calls == old(service.calls)
                && resp.value == old(reviews)[id].(comment := dto.comment, rating := dto.rating, companyId := dto.companyId)
      ensures resp.Ok? && NewImages(dto) != [] ==>
                var n, urls := |old(service.calls)|, old(reviews)[id].imageUrls;
                && |service.calls| >= n + |urls|
                && service.calls[..n + |urls|] == old(service.calls) + DeleteCalls(urls)
                && UploadsOf(service.calls[n + |urls|..], NewImages(dto))
                && resp.value == old(reviews)[id].(comment := dto.comment, rating := dto.rating, companyId := dto.companyId,
                                                  imageUrls := Kept(service.calls[n + |urls|..]))
    {
      var invalid := Validate(dto);
      if invalid.Some? {
        return BadRequest(invalid.value);
      }
      var userId := UserId(user);
      if userId.None? {
        return Unauthorized;
      }
      if id !in reviews {
        return NotFound;
      }
      var review := reviews[id];
      if !IsReviewOwner(userId.value, review) {
        return Forbid;
      }
      review := review.(comment := dto.comment, rating := dto.rating, companyId := dto.companyId);
      if dto.images.Some? && |dto.images.value| > 0 {
        if |review.imageUrls| > 0 {
          DeleteEach(review.imageUrls);
        }
        ghost var afterDeletes := service.calls;
        var newImageUrls := UploadEach(dto.images.value);
        assert service.calls[|afterDeletes|..] == service.calls[|old(service.calls)| + |review.imageUrls|..];
        review := review.(imageUrls := newImageUrls);
      }
      reviews := reviews[id := review];
      resp := Ok(review);
    }
  }

  /** On any well-formed controller whose storage accepts every upload: a
      review posted with non-empty files keeps one URL per file, the i-th being
      the i-th upload's result; deleting it then sends exactly one delete per
      URL, in the same order, and leaves the table as it was. */
  method PostThenDelete(controller: ReviewsController, files: seq<FormFile>, user: Claims, now: int)
    returns (imageUrls: seq<string>, ghost uploads: seq<Call>, ghost deletes: seq<Call>)
    requires controller.Valid() && AlwaysAccepts(controller.service.cloud)
    requires |files| <= MaxImagesPerReview && NonEmptyFiles(files)
    requires UserId(user).Some?
    modifies controller, controller.service
    ensures controller.Valid()
    ensures controller.service.calls == old(controller.service.calls) + uploads + deletes
    ensures controller.reviews == old(controller.reviews)
    ensures controller.nextId == old(controller.nextId) + 1
    ensures UploadsOf(uploads, files)
    ensures |imageUrls| == |files|
    ensures forall i :: 0 <= i < |files| ==> uploads[i].result == Some(imageUrls[i])
    ensures deletes == DeleteCalls(imageUrls)
  {
    ghost var table := controller.reviews;
    var review;
    review, uploads := PostAccepted(controller, files, user, now);
    imageUrls := review.imageUrls;
    ghost var afterPost := controller.service.calls;
    var deleted := controller.DeleteReview(user, review.id);
    assert deleted.Ok?;
    deletes := DeleteCalls(imageUrls);
    assert controller.service.calls == afterPost + deletes;
    assert controller.reviews == table[review.id := review] - {review.id};
    assert controller.reviews == table;
  }

  /** The posting half of `PostThenDelete`: the new row is the caller's, and
      its URLs are the upload results, one per file, in order. */
  method PostAccepted(controller: ReviewsController, files: seq<FormFile>, user: Claims, now: int)
    returns (review: Review, ghost uploads: seq<Call>)
    requires controller.Valid() && AlwaysAccepts(controller.service.cloud)
    requires |files| <= MaxImagesPerReview && NonEmptyFiles(files)
    requires UserId(user).Some?
    modifies controller, controller.service
    ensures controller.Valid()
    ensures controller.service.calls == old(controller.service.calls) + uploads
    ensures review.id == old(controller.nextId) && review.id !in old(controller.reviews)
    ensures controller.reviews == old(controller.reviews)[review.id := review]
    ensures controller.nextId == old(controller.nextId) + 1
    ensures IsReviewOwner(UserId(user).value, review)
    ensures UploadsOf(uploads, files)
    ensures |review.imageUrls| == |files|
    ensures forall i :: 0 <= i < |files| ==> uploads[i].result == Some(review.imageUrls[i])
  {
    var service := controller.service;
    ghost var before := service.calls;
    var dto := ReviewDto("Good service", Some(files), 5, "c");
    assert Validate(dto).None? && NewImages(dto) == files;
    var posted := controller.PostReview(dto, user, now);
    uploads := service.calls[|before|..];
    assert service.calls == before + uploads;
    KeptAll(uploads);
    review := posted.value;
  }
}
