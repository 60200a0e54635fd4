/**
 * `main` of download_model.py: resolve the model, download it, upload it,
 * remove the local copy unless asked to keep it, and report the S3 path.
 * Any exception in those steps makes the process exit with status 1 and
 * skips the steps after it. The download, `upload_file` and `rmtree` are
 * given as outcomes: whether the download returns normally, which upload
 * calls raise, whether the removal returns normally.
 */
module Sync {
  import opened Wrappers
  import opened ModelCatalog
  import opened Locations
  import opened Upload

  /**
   * The parsed command line: `--model`, `--s3-bucket`, `--region`, `--keep-local`.
   * `region` only configures the S3 client, which is not modelled; it is kept
   * for the record and nothing reads it.
   */
  datatype Args = Args(model: string, s3Bucket: string, region: string, keepLocal: bool)

  /** The arguments of the call `download_model(model_id, local_path)`. */
  datatype DownloadCall = DownloadCall(modelId: string, localPath: string)

  /**
   * What one run did: its exit status, the download it started, what the
   * upload did, the directory passed to `shutil.rmtree`, whether that
   * directory is gone afterwards, and the S3 path printed as the result.
   */
  datatype RunOutcome = RunOutcome(
    exitCode: int,
    download: Option<DownloadCall>,
    upload: Option<UploadResult>,
    rmtree: Option<string>,
    localRemoved: bool,
    s3Path: Option<string>)

  /** Download and upload both returned normally. */
  predicate Synced(args: Args, downloadSucceeds: bool, walk: seq<WalkEntry>, uploadSucceeds: nat -> bool) {
    IsChoice(args.model) && downloadSucceeds && AllUploadsSucceed(walk, uploadSucceeds)
  }

  /**
   * `main`, lines 77-122. An argument argparse rejects ends the process with
   * status 2 before anything is touched.
   */
  method Run(args: Args, downloadSucceeds: bool, walk: seq<WalkEntry>, uploadSucceeds: nat -> bool,
             rmtreeSucceeds: bool)
    returns (out: RunOutcome)
    ensures out.exitCode == 0 || out.exitCode == 1 || out.exitCode == 2
    ensures out.exitCode == 2 <==> !IsChoice(args.model)
    ensures !IsChoice(args.model) ==> out == RunOutcome(2, None, None, None, false, None)
    ensures IsChoice(args.model) ==>
              out.download == Some(DownloadCall(SupportedModels[args.model], "./models/" + args.model))
    ensures out.upload.Some? <==> IsChoice(args.model) && downloadSucceeds
    ensures out.upload.Some? ==>
              out.upload.value == UploadSpec(walk, args.s3Bucket, "models/" + args.model + "/", uploadSucceeds)
    ensures out.rmtree == if Synced(args, downloadSucceeds, walk, uploadSucceeds) && !args.keepLocal
                          then Some("./models/" + args.model) else None
    ensures out.localRemoved <==> out.rmtree.Some? && rmtreeSucceeds
    ensures out.exitCode == 0 <==> Synced(args, downloadSucceeds, walk, uploadSucceeds) && (args.keepLocal || rmtreeSucceeds)
    ensures out.s3Path == if out.exitCode == 0 then Some("s3://" + args.s3Bucket + "/models/" + args.model + "/") else None
  {
    if !IsChoice(args.model) {
      return RunOutcome(2, None, None, None, false, None);
    }
    var modelId := ModelId(args.model);
    var localPath := LocalPath(args.model);
    var s3Prefix := S3Prefix(args.model);
    var download := DownloadCall(modelId, localPath);
    if !downloadSucceeds {
      return RunOutcome(1, Some(download), None, None, false, None);
    }
    var uploaded := UploadToS3(walk, args.s3Bucket, s3Prefix, uploadSucceeds);
    CompletesIffAllSucceed(walk, args.s3Bucket, s3Prefix, uploadSucceeds);
    if uploaded.Raised? {
      return RunOutcome(1, Some(download), Some(uploaded), None, false, None);
    }
    assert uploaded.s3Path == "s3://" + args.s3Bucket + "/models/" + args.model + "/";
    if !args.keepLocal {
      if !rmtreeSucceeds {
        return RunOutcome(1, Some(download), Some(uploaded), Some(localPath), false, None);
      }
      out := RunOutcome(0, Some(download), Some(uploaded), Some(localPath), true, Some(uploaded.s3Path));
    } else {
      out := RunOutcome(0, Some(download), Some(uploaded), None, false, Some(uploaded.s3Path));
    }
  }

  /**
   * After a successful sync of an accepted model, the i-th walked file is
   * the object at the reported S3 path followed by its relative path.
   * (That no two walked files share an object is WalkKeysDistinct.)
   */
  lemma ReportedPathCoversUploads(walk: seq<WalkEntry>, bucket: string, name: string, succeeds: nat -> bool)
    requires IsChoice(name) && AllUploadsSucceed(walk, succeeds)
    ensures var r := UploadSpec(walk, bucket, S3Prefix(name), succeeds);
            && r.Completed?
            && |r.attempted| == |WalkPaths(walk)|
            && forall i :: 0 <= i < |r.attempted| ==>
                 "s3://" + bucket + "/" + r.attempted[i] == r.s3Path + WalkPaths(walk)[i]
  {
    var paths := WalkPaths(walk);
    ChoicesArePlainNames(name);
    AllSucceedCompletes(walk, bucket, S3Prefix(name), succeeds);
    forall i | 0 <= i < |paths|
      ensures "s3://" + bucket + "/" + KeysOf(S3Prefix(name), paths)[i] == S3Uri(bucket, S3Prefix(name)) + paths[i]
    {
      ObjectUnderReportedUri(bucket, name, paths[i]);
    }
  }
}
