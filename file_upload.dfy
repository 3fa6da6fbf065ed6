/** The storage service the controllers call (`IFileUploadService`), with the
    remote image storage behind it reduced to an oracle: the storage's answer
    to the n-th upload it receives is `cloud(n)`, and the path of a URL is
    `absolutePath(url)`. Every call the controllers make is recorded in
    `calls`; every request that reaches the storage is recorded in `storage`. */
module FileUpload {
  import opened Common
  import PublicId

  /** An uploaded form file (`IFormFile`), reduced to its name and length. */
  datatype FormFile = FormFile(fileName: string, length: nat)

  /** What the storage answers to an upload: an HTTP status and the secure URL. */
  datatype UploadReply = UploadReply(statusCode: int, secureUrl: string)

  const StatusOk := 200

  /** A call to the service, as the controllers see it. */
  datatype Call =
    | Upload(file: Option<FormFile>, result: Option<string>)
    | Delete(publicIdOrUrl: string)

  /** A request that reaches the remote storage. */
  datatype StorageRequest = UploadAsync(file: FormFile) | DestroyAsync(publicId: string)

  /** The URL an upload reports back: the secure URL when the status is OK,
      null otherwise, as `UploadFileAsync` reads it. */
  function ReplyUrl(reply: UploadReply): (url: Option<string>)
    ensures url.Some? <==> reply.statusCode == StatusOk
    ensures url.Some? ==> url.value == reply.secureUrl
  {
    if reply.statusCode == StatusOk then Some(reply.secureUrl) else None
  }

  /** A storage that answers every upload with OK and a non-empty URL. */
  ghost predicate AlwaysAccepts(cloud: nat -> UploadReply)
  {
    forall n: nat :: cloud(n).statusCode == StatusOk && cloud(n).secureUrl != ""
  }

  class FileUploadService {
    /** The storage's answer to its n-th upload. */
    const cloud: nat -> UploadReply
    /** `new Uri(url).AbsolutePath`. */
    const absolutePath: string -> string
    /** How many uploads have reached the storage. */
    var uploadsSent: nat
    ghost var calls: seq<Call>
    ghost var storage: seq<StorageRequest>

    constructor (cloud: nat -> UploadReply, absolutePath: string -> string)
      ensures this.cloud == cloud && this.absolutePath == absolutePath
      ensures uploadsSent == 0 && calls == [] && storage == []
    {
      this.cloud := cloud;
      this.absolutePath := absolutePath;
      uploadsSent := 0;
      calls := [];
      storage := [];
    }

    /** The public id a stored URL is deleted under. */
    function PublicIdOf(url: string): string
    {
      PublicId.IntendedPublicId(url, absolutePath(url))
    }

    /** `UploadFileAsync`: a missing or empty file gives null without any
        request to the storage; otherwise the file is sent and the URL comes
        back only when the storage answers OK. */
    method UploadFile(file: Option<FormFile>) returns (url: Option<string>)
      modifies this
      ensures calls == old(calls) + [Upload(file, url)]
      ensures file.None? || file.value.length == 0 ==>
                url.None? && storage == old(storage) && uploadsSent == old(uploadsSent)
      ensures file.Some? && file.value.length > 0 ==>
                && storage == old(storage) + [UploadAsync(file.value)]
                && uploadsSent == old(uploadsSent) + 1
                && url == ReplyUrl(cloud(old(uploadsSent)))
    {
      if file.None? || file.value.length == 0 {
        url := None;
      } else {
        var reply := cloud(uploadsSent);
        storage := storage + [UploadAsync(file.value)];
        uploadsSent := uploadsSent + 1;
        url := ReplyUrl(reply);
      }
      calls := calls + [Upload(file, url)];
    }

    /** `DeleteFileAsync`: an empty string is ignored; otherwise the storage
        is asked to destroy the object under the URL's public id. Nothing is
        reported back. */
    method DeleteFile(publicIdOrUrl: string)
      modifies this
      ensures calls == old(calls) + [Delete(publicIdOrUrl)]
      ensures uploadsSent == old(uploadsSent)
      ensures publicIdOrUrl == "" ==> storage == old(storage)
      ensures publicIdOrUrl != "" ==> storage == old(storage) + [DestroyAsync(PublicIdOf(publicIdOrUrl))]
    {
      if publicIdOrUrl != "" {
        storage := storage + [DestroyAsync(PublicIdOf(publicIdOrUrl))];
      }
      calls := calls + [Delete(publicIdOrUrl)];
    }
  }
}
