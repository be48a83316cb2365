/**
 * Image upload and removal against the blob store. The store is modelled as
 * the set of URLs it currently serves; what `put` and `del` do on the
 * network (the URL `put` picks, an error either may throw) is an input.
 */
module Upload {
  import opened Wrappers
  import opened Strings
  import opened Auth
  import opened Types
  import opened Actions

  /** The uploaded `File`: its name, MIME type and size in bytes. */
  datatype File = File(name: string, contentType: string, size: nat)

  /** 5 MiB, the largest accepted upload. */
  const MaxImageBytes: nat := 5 * 1024 * 1024

  /** The checks before the upload: a file is present, is an image, and is at most 5 MiB, in that order. */
  function ImageCheck(file: Option<File>): (r: Result<File, string>)
    ensures r.Success? <==> file.Some? && StartsWith(file.value.contentType, "image/") && file.value.size <= MaxImageBytes
    ensures r.Success? ==> r.value == file.value
    ensures file.None? ==> r == Failure("No file provided")
    ensures file.Some? && !StartsWith(file.value.contentType, "image/") ==> r == Failure("File must be an image")
    ensures file.Some? && StartsWith(file.value.contentType, "image/") && file.value.size > MaxImageBytes ==>
      r == Failure("File size must be less than 5MB")
  {
    if file.None? then Failure("No file provided")
    else if !StartsWith(file.value.contentType, "image/") then Failure("File must be an image")
    else if file.value.size > MaxImageBytes then Failure("File size must be less than 5MB")
    else Success(file.value)
  }

  /** The size limit is inclusive: exactly 5 MiB passes and one byte more does not. */
  lemma SizeLimitInclusive(name: string, contentType: string)
    requires StartsWith(contentType, "image/")
    ensures ImageCheck(Some(File(name, contentType, 5242880))).Success?
    ensures ImageCheck(Some(File(name, contentType, 5242881))) == Failure("File size must be less than 5MB")
  {
  }

  /** What `put` did: stored the blob at a public URL, or threw. */
  datatype PutOutcome = Stored(url: string) | PutThrew(thrown: Thrown)

  /** What `del` did: removed the blob, or threw. */
  datatype DelOutcome = Removed | DelThrew(thrown: Thrown)

  /** `uploadImage`'s result: an ActionResult with the blob's URL on success. */
  datatype UploadResult = UploadResult(success: bool, message: string, url: Option<string>)

  class BlobStore {
    /** The URLs of the blobs the store holds. */
    var urls: set<string>

    constructor (urls: set<string>)
      ensures this.urls == urls
    {
      this.urls := urls;
    }

    /**
     * `uploadImage`: the admin check, then the file checks; only when all pass
     * is the blob stored, and the result carries its URL. A throw from `put`
     * becomes a failure result.
     */
    method UploadImage(caller: Caller, env: Option<string>, file: Option<File>, put: PutOutcome) returns (r: UploadResult)
      modifies this
      ensures r.success <==> IsAdmin(caller, env) && ImageCheck(file).Success? && put.Stored?
      ensures r.success ==> r == UploadResult(true, "Image uploaded successfully", Some(put.url)) && urls == old(urls) + {put.url}
      ensures !r.success ==> r.url.None? && urls == old(urls)
      ensures !IsAdmin(caller, env) ==> r.message == AuthFailure(caller, env).message
      ensures IsAdmin(caller, env) && ImageCheck(file).Failure? ==> r.message == ImageCheck(file).error
      ensures IsAdmin(caller, env) && ImageCheck(file).Success? && put.PutThrew? ==>
        r.message == CaughtMessage(put.thrown, "Failed to upload image")
    {
      if !IsAdmin(caller, env) {
        return UploadResult(false, AuthFailure(caller, env).message, None);
      }
      var checked := ImageCheck(file);
      if checked.Failure? {
        return UploadResult(false, checked.error, None);
      }
      match put
      case PutThrew(thrown) =>
        r := UploadResult(false, CaughtMessage(thrown, "Failed to upload image"), None);
      case Stored(url) =>
        urls := urls + {url};
        r := UploadResult(true, "Image uploaded successfully", Some(url));
    }

    /**
     * `deleteImage`: the admin check, then an empty URL is refused with
     * 'No URL provided'; otherwise `del` is called, and a throw from it
     * becomes a failure result.
     */
    method DeleteImage(caller: Caller, env: Option<string>, url: string, del: DelOutcome) returns (r: ActionResult)
      modifies this
      ensures r.success <==> IsAdmin(caller, env) && url != "" && del.Removed?
      ensures r.success ==> r == Succeeded("Image deleted successfully") && urls == old(urls) - {url}
      ensures !r.success ==> urls == old(urls)
      ensures !IsAdmin(caller, env) ==> r == AuthFailure(caller, env)
      ensures IsAdmin(caller, env) && url == "" ==> r == Failed("No URL provided")
      ensures IsAdmin(caller, env) && url != "" && del.DelThrew? ==> r == Failed(CaughtMessage(del.thrown, "Failed to delete image"))
    {
      if !IsAdmin(caller, env) {
        return AuthFailure(caller, env);
      }
      if url == "" {
        return Failed("No URL provided");
      }
      match del
      case DelThrew(thrown) =>
        r := Failed(CaughtMessage(thrown, "Failed to delete image"));
      case Removed =>
        urls := urls - {url};
        r := Succeeded("Image deleted successfully");
    }
  }
}
