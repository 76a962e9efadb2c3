/** The media service as the controller sees it: an upload call that may hand back a delivery
    URL, a destroy call that may fail, and the log of calls issued. */
module Media {
  import opened Wrappers

  /** An uploaded file, identified by the path the multipart parser stored it under. */
  type File = string

  datatype MediaCall = Upload(file: File) | Destroy(publicId: string)

  /** The external service: `upload` gives the delivery URL of a file, or `None` when the upload
      is rejected; `destroy` says whether deleting a resource succeeded. */
  datatype MediaService = MediaService(upload: File -> Option<string>, destroy: string -> bool)

  /** One upload call per file, issued in file order. */
  function UploadCalls(files: seq<File>): (r: seq<MediaCall>)
    ensures |r| == |files|
    ensures forall i :: 0 <= i < |files| ==> r[i] == Upload(files[i])
  {
    if files == [] then [] else [Upload(files[0])] + UploadCalls(files[1..])
  }

  /** `Promise.all(files.map(upload))` mapped to `secure_url`: every call is issued; the batch
      yields the URLs in file order when all succeed, and fails when any one fails. */
  function UploadAll(media: MediaService, files: seq<File>): (r: Option<seq<string>>)
    ensures r.Some? <==> forall i :: 0 <= i < |files| ==> media.upload(files[i]).Some?
    ensures r.Some? ==> |r.value| == |files| && forall i :: 0 <= i < |files| ==> r.value[i] == media.upload(files[i]).value
  {
    if files == [] then Some([])
    else match (media.upload(files[0]), UploadAll(media, files[1..]))
      case (Some(url), Some(rest)) => Some([url] + rest)
      case _ => None
  }

  /** One destroy call per identifier, issued in order. */
  function DestroyCalls(ids: seq<string>): (r: seq<MediaCall>)
    ensures |r| == |ids|
    ensures forall i :: 0 <= i < |ids| ==> r[i] == Destroy(ids[i])
  {
    if ids == [] then [] else [Destroy(ids[0])] + DestroyCalls(ids[1..])
  }

  predicate AllDestroyed(media: MediaService, ids: seq<string>) {
    forall i :: 0 <= i < |ids| ==> media.destroy(ids[i])
  }
}
