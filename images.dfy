/** The company gallery (`ImagesController`): upload one image per call under
    a quota of 15 per company, list a company's images, delete an image. The
    Images table is the map `images`. */
module Images {
  import opened Common
  import opened Models
  import opened FileUpload

  const MaxImagesPerCompany := 15

  /** The form of an upload request (`ImageDto`); `image` is `None` when no
      file was sent. */
  datatype ImageDto = ImageDto(companyId: string, image: Option<FormFile>)

  /** The images of one company (`Where(i => i.CompanyId == companyId)`). */
  function ImagesOfCompany(images: map<int, Image>, companyId: string): (m: map<int, Image>)
    ensures forall id :: id in m <==> id in images && images[id].companyId == companyId
    ensures forall id :: id in m ==> m[id] == images[id]
  {
    map id | id in images && images[id].companyId == companyId :: images[id]
  }

  /** How many images a company has (the count `UploadImage` checks against the limit). */
  function CompanyImageCount(images: map<int, Image>, companyId: string): (n: nat)
    ensures n <= |images|
  {
    var m := ImagesOfCompany(images, companyId);
    SubsetCard(m.Keys, images.Keys);
    |m|
  }

  /** Adding an image under a new id adds that id to its own company's images only. */
  lemma KeysAfterAdd(images: map<int, Image>, id: int, image: Image, companyId: string)
    ensures ImagesOfCompany(images[id := image], companyId).Keys ==
            if image.companyId == companyId then ImagesOfCompany(images, companyId).Keys + {id}
            else ImagesOfCompany(images, companyId).Keys - {id}
  {
  }

  /** Adding an image under a new id raises its own company's count by one and
      leaves every other company's count alone. */
  lemma CountAfterAdd(images: map<int, Image>, id: int, image: Image, companyId: string)
    requires id !in images
    ensures CompanyImageCount(images[id := image], companyId) ==
            CompanyImageCount(images, companyId) + (if image.companyId == companyId then 1 else 0)
  {
    var before := ImagesOfCompany(images, companyId).Keys;
    KeysAfterAdd(images, id, image, companyId);
    assert id !in before;
    assert before - {id} == before;
  }

  /** Removing an image never raises any company's count. */
  lemma CountAfterRemove(images: map<int, Image>, id: int, companyId: string)
    ensures CompanyImageCount(images - {id}, companyId) <= CompanyImageCount(images, companyId)
  {
    var before, after := ImagesOfCompany(images, companyId), ImagesOfCompany(images - {id}, companyId);
    assert after.Keys <= before.Keys;
    assert |after.Keys| <= |before.Keys| by {
      SubsetCard(after.Keys, before.Keys);
    }
  }

  /** No company holds more than 15 images. */
  ghost predicate WithinQuota(images: map<int, Image>)
  {
    forall companyId :: CompanyImageCount(images, companyId) <= MaxImagesPerCompany
  }

  /** Adding an image to a company below its quota keeps every company within it. */
  lemma AddKeepsQuota(images: map<int, Image>, id: int, image: Image)
    requires id !in images
    requires WithinQuota(images)
    requires CompanyImageCount(images, image.companyId) < MaxImagesPerCompany
    ensures WithinQuota(images[id := image])
  {
    var after := images[id := image];
    forall companyId: string
      ensures CompanyImageCount(after, companyId) <= MaxImagesPerCompany
    {
      CountAfterAdd(images, id, image, companyId);
    }
  }

  /** Removing an image keeps every company within its quota. */
  lemma RemoveKeepsQuota(images: map<int, Image>, id: int)
    requires WithinQuota(images)
    ensures WithinQuota(images - {id})
  {
    var after := images - {id};
    forall companyId: string
      ensures CompanyImageCount(after, companyId) <= MaxImagesPerCompany
    {
      CountAfterRemove(images, id, companyId);
    }
  }

  lemma SubsetCard(a: set<int>, b: set<int>)
    requires a <= b
    ensures |a| <= |b|
  {
    assert b == a + (b - a);
  }

  /** What every stored image satisfies. */
  ghost predicate WellFormed(id: int, image: Image)
  {
    image.id == id && image.imageUrl != "" && image.companyId != "" && image.userId != ""
  }

  class ImagesController {
    /** The Images table, by id. */
    var images: map<int, Image>
    /** The id the database gives the next new image. */
    var nextId: int
    const service: FileUploadService

    /** Every row is well formed, and, with requests taken one at a time, no
        company ever holds more than 15 images. */
    ghost predicate Valid()
      reads this
    {
      && (forall id :: id in images ==> id < nextId && WellFormed(id, images[id]))
      && WithinQuota(images)
    }

    constructor (service: FileUploadService)
      ensures Valid() && this.service == service
      ensures images == map[] && nextId == 1
    {
      this.service := service;
      images := map[];
      nextId := 1;
      forall companyId: string ensures CompanyImageCount(map[], companyId) == 0 {
        assert ImagesOfCompany(map[], companyId) == map[];
      }
    }

    /** Whether a request gets as far as the upload: company and file present,
        caller known, and the company under its quota. */
    ghost predicate ReachesUpload(dto: ImageDto, user: Claims)
      reads this
    {
      && dto.companyId != ""
      && dto.image.Some?
      && UserId(user).Some?
      && CompanyImageCount(images, dto.companyId) < MaxImagesPerCompany
    }

    /** `UploadImage`: the checks come first and in this order; a company at
        its quota is refused before anything is uploaded; a failed upload
        stores nothing. */
    method UploadImage(dto: ImageDto, user: Claims, now: int) returns (resp: Response<Image>)
      requires Valid()
      modifies this, service
      ensures Valid()
      ensures dto.companyId == "" ==> resp == BadRequest(EmptyCompanyId)
      ensures dto.companyId != "" && dto.image.None? ==> resp == BadRequest(MissingImage)
      ensures dto.companyId != "" && dto.image.Some? && UserId(user).None? ==> resp == Unauthorized
      ensures (dto.companyId != "" && dto.image.Some? && UserId(user).Some? &&
               CompanyImageCount(old(images), dto.companyId) >= MaxImagesPerCompany) ==>
                resp == BadRequest(ImageLimitReached)
      ensures !old(ReachesUpload(dto, user)) ==> unchanged(this) && unchanged(service)
      ensures old(ReachesUpload(dto, user)) ==>
                var n := |old(service.calls)|;
                && |service.calls| == n + 1
                && service.calls[..n] == old(service.calls)
                && service.calls[n].Upload? && service.calls[n].file == dto.image
                && (resp.Ok? <==> !IsNullOrEmpty(service.calls[n].result))
                && (!resp.Ok? ==> resp == BadRequest(UploadFailed) && images == old(images) && nextId == old(nextId))
      ensures resp.Ok? ==>
                && resp.value == Image(old(nextId), resp.value.imageUrl, dto.companyId, UserId(user).value, now)
                && service.calls[|old(service.calls)|] == Upload(dto.image, Some(resp.value.imageUrl))
                && old(nextId) !in old(images)
                && images == old(images)[old(nextId) := resp.value]
                && nextId == old(nextId) + 1
                && CompanyImageCount(images, dto.companyId) == CompanyImageCount(old(images), dto.companyId) + 1
    {
      if dto.companyId == "" {
        return BadRequest(EmptyCompanyId);
      }
      if dto.image.None? {
        return BadRequest(MissingImage);
      }
      var userId := UserId(user);
      if userId.None? {
        return Unauthorized;
      }
      var existingImagesCount := CompanyImageCount(images, dto.companyId);
      if existingImagesCount >= MaxImagesPerCompany {
        return BadRequest(ImageLimitReached);
      }
      var imageUrl := service.UploadFile(dto.image);
      if IsNullOrEmpty(imageUrl) {
        return BadRequest(UploadFailed);
      }
      var image := Image(nextId, imageUrl.value, dto.companyId, userId.value, now);
      AddKeepsQuota(images, nextId, image);
      CountAfterAdd(images, nextId, image, dto.companyId);
      images := images[nextId := image];
      nextId := nextId + 1;
      resp := Ok(image);
    }

    /** `GetImages`: the images of one company; an empty id is refused. */
    function GetImages(companyId: string): (r: Response<map<int, Image>>)
      reads this
      ensures r.BadRequest? <==> companyId == ""
      ensures companyId != "" ==> r.Ok?
      ensures r.Ok? ==> forall id :: id in r.value <==> id in images && images[id].companyId == companyId
      ensures r.Ok? ==> forall id :: id in r.value ==> r.value[id] == images[id]
    {
      if companyId == "" then BadRequest(EmptyCompanyId) else Ok(ImagesOfCompany(images, companyId))
    }

    /** `DeleteImage`: a missing id is refused with no storage call; otherwise
        the image's URL goes to the storage service and the row is removed,
        whoever the caller is. */
    method DeleteImage(id: int) returns (resp: Response<()>)
      requires Valid()
      modifies this, service
      ensures Valid() && nextId == old(nextId)
      ensures id !in old(images) ==> resp == NotFound && unchanged(this) && unchanged(service)
      ensures id in old(images) ==>
                && resp == Ok(())
                && service.calls == old(service.calls) + [Delete(old(images)[id].imageUrl)]
                && images == old(images) - {id}
    {
      if id !in images {
        return NotFound;
      }
      var image := images[id];
      service.DeleteFile(image.imageUrl);
      RemoveKeepsQuota(images, id);
      images := images - {id};
      resp := Ok(());
    }
  }
}
