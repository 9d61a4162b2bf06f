/**
 * The dataset-presence endpoint (app/api/datasets/check/route.ts): a read of
 * the uploads directory reporting whether it holds anything and how much.
 */
module DatasetsCheck {
  import opened Wrappers
  import opened Common
  import UploadRoute

  const CheckFailedError: string := "Failed to check for datasets"

  /** The JSON body of the response; `count` is absent when the directory is. */
  datatype CheckResponse =
    | CheckOk(hasDatasets: bool, count: Option<nat>)
    | CheckFailed(status: nat, error: string)

  /**
   * `GET`: `uploads` is the directory (None when it does not exist) and
   * `listingFails` says whether `readdir` throws.
   */
  function Check(uploads: Option<Dir>, listingFails: bool): (r: CheckResponse)
    ensures uploads.None? ==> r == CheckOk(false, None)
    ensures uploads.Some? && listingFails ==> r == CheckFailed(500, CheckFailedError)
    ensures uploads.Some? && !listingFails ==>
              r.CheckOk? && r.count == Some(|uploads.value|) && (r.hasDatasets <==> r.count.value > 0)
  {
    match uploads
    case None => CheckOk(false, None)
    case Some(d) =>
      if listingFails then CheckFailed(500, CheckFailedError)
      else
        var count := |d|;
        CheckOk(count > 0, Some(count))
  }

  /**
   * Upload then check: a successful upload of n files with fresh UUIDs into a
   * directory of k entries (or a missing one, k = 0) makes the check report
   * datasets present and a count of k + n.
   */
  lemma CheckAfterUpload(uploads: Option<Dir>, files: seq<File>, ids: seq<string>, stamps: seq<string>)
    requires |files| > 0 && |ids| == |files| && |stamps| == |files|
    requires UploadRoute.UniqueUuids(ids)
    requires forall i :: 0 <= i < |files| ==>
               UploadRoute.StoredNameFor(files[i], ids[i], stamps[i]) !in uploads.GetOr(map[])
    ensures var after := UploadRoute.StoreAll(uploads.GetOr(map[]), UploadRoute.Entries(files, ids, stamps));
            Check(Some(after), false) == CheckOk(true, Some(|uploads.GetOr(map[])| + |files|))
  {
    UploadRoute.BatchStoredInFull(uploads.GetOr(map[]), files, ids, stamps);
  }
}
