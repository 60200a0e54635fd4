# Model download and S3 sync, in Dafny

This project models `download_model.py`, the script that downloads a
vision-language model from Hugging Face into `./models/<name>` and copies it
to an S3 bucket under `models/<name>/`. The model covers:

- the fixed table `SUPPORTED_MODELS` and the argparse `choices` check on `--model`;
- the strings built from the model name: the local directory, the S3 prefix,
  the object key of each file (`s3_prefix.rstrip('/') + "/" + relative_path`)
  and the S3 path the script reports;
- `upload_to_s3`: the count of walked files, the nested loop over the walk
  that puts one object per file and counts the uploads, the progress line
  printed at every tenth upload, and the S3 path it returns;
- `main`: download, then upload, then removal of the local copy unless
  `--keep-local` is given, then the report. Any exception makes it return 1
  and skips the remaining steps.

The side effects are given as inputs:

- the download is one boolean: it returns normally or raises;
- the directory walk is a sequence of `WalkEntry(dir, files)` values in
  `os.walk` order, with `dir` relative to the model directory (`""` for the
  model directory itself);
- `s3_client.upload_file` is an oracle `succeeds: nat -> bool`. The n-th call,
  counting from 0, returns normally iff `succeeds(n)` holds;
- `shutil.rmtree` is one boolean.

Modules: `ModelCatalog` (catalog.dfy) holds the table, `Locations`
(locations.dfy) the string derivations, `Upload` (upload.dfy) the upload loop,
and `Sync` (sync.dfy) the `main` control flow. `Wrappers` (wrappers.dfy)
defines `Option`.

`Upload.UploadSpec` says what an upload does with no loop in it. The first
call that raises ends the upload right after that call. If no call raises,
every walked file is put exactly once, in walk order. `Upload.UploadToS3`
holds the nested loop and is proved equal to `UploadSpec`. The lemmas in
the table below state the source's promises about `UploadSpec`. The plain
string functions `LocalPath`, `S3Prefix` and `S3Uri`, the relative-path
functions `RelativePath` (`os.path.relpath(os.path.join(root, file),
local_path)`, lines 58-59) and `EntryPaths`, and the walk functions
`WalkPaths`, `FileCount`, `KeysOf` and `ProgressMarks`, have no contract of
their own. The lemmas about them are in the table.

Facts about the script that the model keeps:

- the script has no retry around the download;
- the script has no step that selects only the "essential" files. Every walked
  file is uploaded;
- the script does not continue past a failed upload and does not return a
  per-file report. The first `upload_file` exception ends `upload_to_s3`, and
  `main` then returns 1;
- `main` only distinguishes exit status 0 from 1 (plus argparse's 2). It has
  no separate error kinds.

## Model

| member | source | states |
|---|---|---|
| `ModelCatalog.ModelId` | download_model.py:79 | the lookup `SUPPORTED_MODELS[args.model]` succeeds for every name argparse accepts; the identifier it yields belongs to that name alone |
| `ModelCatalog.ChoicesAreTheTable` | download_model.py:14-18 | the accepted `--model` values are exactly the three table keys, each mapped to its fixed Hugging Face identifier |
| `Locations.ChoicesArePlainNames` | download_model.py:72 | every accepted model name is non-empty and has no '/' |
| `Locations.LocationsDetermineName` | download_model.py:80-81 | `./models/<name>` and `models/<name>/` each determine the name: different models never share a local directory or an S3 prefix |
| `Locations.RStripSlash` | download_model.py:60 | `rstrip('/')` returns a prefix of its input that does not end in '/', and only '/' characters follow it in the input |
| `Locations.StrippedOfUnique` | download_model.py:60 | exactly one string has those three properties, so `RStripSlash` is exactly Python's rstrip of '/' |
| `Locations.RStripSlashIdempotent` | download_model.py:60 | stripping twice gives the same result as stripping once; the result never ends in '/' |
| `Locations.RStripSlashAppendSlash` | download_model.py:60 | one more trailing '/' makes no difference after stripping |
| `Locations.S3Key` | download_model.py:60 | the key is the prefix with all of its trailing '/' removed, then exactly one '/', then the relative path |
| `Locations.S3KeyInjective` | download_model.py:60 | under one prefix, two relative paths with the same key are equal; a file re-uploaded gets the same key |
| `Locations.S3KeyOfModel` | download_model.py:60 | for an accepted model name the key is `models/<name>/<relative path>` |
| `Locations.ObjectUnderReportedUri` | download_model.py:66 | `s3://<bucket>/` followed by an object's key equals the reported S3 path (built from the unstripped prefix) followed by the relative path |
| `Locations.DistinctModelsDistinctKeys` | download_model.py:81 | two different model names never produce the same object key, whatever the relative paths |
| `Upload.FileCountIsWalkLength` | download_model.py:51 | `file_count`, the sum of the file-list lengths, equals the number of paths the walk yields |
| `Upload.LeadingSuccesses` | download_model.py:56-62 | the number of upload calls that return normally before the first raise: all calls before it succeed, and the call at that index raises unless no call raised |
| `Upload.UploadToS3` | download_model.py:55-68 | the nested loop over the walk produces exactly `UploadSpec`: the count printed first, the keys passed to `upload_file` in call order, the final counter, the progress lines and the returned S3 path, or the escaping exception |
| `Upload.UploadFiles` | download_model.py:57-64 | the inner loop over one directory's files: it either uploads all of them, or stops at the first raising call with that file's key as the last one attempted |
| `Upload.CompletesIffAllSucceed` | download_model.py:56-68 | `upload_to_s3` returns normally iff no `upload_file` call raises |
| `Upload.AllSucceedCompletes` | download_model.py:55-68 | when every call succeeds: `uploaded == file_count`; each walked file's key is put once, in walk order; the result is `s3://<bucket>/<prefix>`; `uploaded / 10` progress lines were printed |
| `Upload.FirstRaiseAborts` | download_model.py:56-62 | when the call for walked file k is the first to raise: exactly k files were uploaded, that file's key was the last one attempted, no later file was tried, the exception escapes, and `k / 10` progress lines were printed |
| `Upload.ProgressMarksCount` | download_model.py:63-64 | after n uploads exactly `n / 10` progress lines have been printed |
| `Upload.ProgressMarksExact` | download_model.py:63-64 | a progress line shows counter value m iff m is a positive multiple of 10 that the counter reached |
| `Upload.KeysDistinct` | download_model.py:60 | distinct relative paths under one prefix give distinct keys |
| `Upload.RelativePathsDiffer` | download_model.py:58-59 | when file names have no '/', different (directory, file name) pairs give different relative paths |
| `Upload.WalkPathsDistinct` | download_model.py:56-59 | a walk that lists each directory once, and each file once per directory, never yields the same relative path twice |
| `Upload.WalkKeysDistinct` | download_model.py:56-61 | in such a walk every file gets its own object key; no upload overwrites another from the same run |
| `Sync.Run` | download_model.py:77-122 | `main`: a name argparse rejects exits with status 2 and nothing runs. Otherwise it downloads `SUPPORTED_MODELS[name]` into `./models/<name>`, then uploads as `UploadSpec` says with prefix `models/<name>/`. `rmtree("./models/<name>")` runs iff download and upload both returned and `--keep-local` is absent. Any failure gives 1; otherwise the result is 0 and the printed path is `s3://<bucket>/models/<name>/` |
| `Sync.ReportedPathCoversUploads` | download_model.py:56-68 | after a full upload of an accepted model, the i-th walked file lies at the reported S3 path followed by its relative path |

## Left out

- The Hugging Face download (`AutoModel`/`AutoProcessor`/`AutoTokenizer.from_pretrained`, `save_pretrained`, `os.makedirs`) is foreign library code and network I/O. It is one boolean outcome, and the files it leaves behind are the given walk.
- `boto3.client('s3', region_name=region)` is not modelled. Its construction cannot fail in the model, and `--region` (default `us-west-2`) only configures it; `Args.region` is carried for the record and read by nothing.
- RelativePath: assumes '/' as the path separator (POSIX `os.sep`). On Windows, `os.path.join` and `os.path.relpath` use '\', so a file in a subdirectory gets a key such as `models/<name>/sub\c`; the model gives `models/<name>/sub/c` and does not capture that.
- `os.walk` is the given sequence of walk steps. The source walks the directory twice, once to count and once to upload. The model assumes both walks yield the same files; a directory that changes between them is not modelled.
- `shutil.rmtree` is one boolean. A removal that fails halfway and leaves part of the directory is modelled as "not removed".
- Console output is left out: the banners, the emoji lines, the S3 Express (`--x-s3`) hints and the error message. The exception is the progress lines, which are kept as the counter values they show (the total they show is the `fileCount` field), and the reported S3 path. Printing is assumed never to raise: a `print` after `shutil.rmtree` that raised (closed stdout, an unencodable emoji) would make `main` return 1 with the local copy already gone, and the model does not capture that.
- argparse itself is left out: usage text, and the errors for missing `--model` or `--s3-bucket`. Only the `choices` check on `--model` is kept, with argparse's exit status 2.
- Sync.Run: models only exceptions derived from `Exception`, which `main` catches. A `KeyboardInterrupt` or other `BaseException` escapes `main` uncaught, and the model does not capture that.
- invoke_sagemaker_endpoint.py is not part of this model. It does image resizing with floating-point arithmetic, image encoding and a SageMaker network call.
- proxy/client_example.py is not part of this model. It is a single hard-coded API client call.
