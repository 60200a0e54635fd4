/**
 * `upload_to_s3` of download_model.py: walk the local model directory, put
 * every file under the S3 prefix, count the uploads and print a progress
 * line at every tenth one. The directory walk is given as data and
 * `s3_client.upload_file` as an oracle saying whether the n-th call
 * (counting from 0) returns normally or raises; a raise ends the walk.
 */
module Upload {
  import opened Locations

  /**
   * One step of `os.walk(local_path)`: a directory, relative to the walked
   * root ("" for the root itself), and the names of the files directly in it.
   */
  datatype WalkEntry = WalkEntry(dir: string, files: seq<string>)

  /**
   * `os.path.relpath(os.path.join(root, file), local_path)` with '/' as the
   * path separator (POSIX `os.sep`).
   */
  function RelativePath(dir: string, file: string): string {
    if dir == "" then file else dir + "/" + file
  }

  /** Relative paths of the files of one walk step, in the order listed. */
  function EntryPaths(e: WalkEntry): seq<string> {
    seq(|e.files|, i requires 0 <= i < |e.files| => RelativePath(e.dir, e.files[i]))
  }

  /** Relative paths of every walked file, in walk order. */
  function WalkPaths(walk: seq<WalkEntry>): seq<string> {
    if walk == [] then [] else WalkPaths(walk[..|walk| - 1]) + EntryPaths(walk[|walk| - 1])
  }

  /** `file_count = sum(len(files) for _, _, files in os.walk(local_path))` */
  function FileCount(walk: seq<WalkEntry>): nat {
    if walk == [] then 0 else |walk[0].files| + FileCount(walk[1..])
  }

  /** The object key of each relative path, in the same order. */
  function KeysOf(prefix: string, paths: seq<string>): seq<string> {
    seq(|paths|, i requires 0 <= i < |paths| => S3Key(prefix, paths[i]))
  }

  /** The counter values after which a progress line is printed, for `n` uploads. */
  function ProgressMarks(n: nat): seq<nat> {
    if n == 0 then [] else ProgressMarks(n - 1) + (if n % 10 == 0 then [n] else [])
  }

  /**
   * How many calls succeed before the first raise, among the first `n`
   * (`n` when none of them raises).
   */
  function LeadingSuccesses(succeeds: nat -> bool, n: nat): (k: nat)
    ensures k <= n
    ensures forall i :: 0 <= i < k ==> succeeds(i)
    ensures k < n ==> !succeeds(k)
  {
    if n == 0 then 0
    else
      var k := LeadingSuccesses(succeeds, n - 1);
      if k == n - 1 && succeeds(n - 1) then n else k
  }

  /** No call to `upload_file` for a walked file raises. */
  predicate AllUploadsSucceed(walk: seq<WalkEntry>, succeeds: nat -> bool) {
    forall i :: 0 <= i < |WalkPaths(walk)| ==> succeeds(i)
  }

  predicate Distinct(s: seq<string>) {
    forall i, j :: 0 <= i < j < |s| ==> s[i] != s[j]
  }

  /**
   * What `upload_to_s3` does. `fileCount` is the count printed before the
   * uploads, `attempted` the keys passed to `upload_file` in call order,
   * `uploaded` the final counter and `progress` the counter values printed
   * as progress lines. `Completed` is a normal return with its S3 path,
   * `Raised` an exception escaping from `upload_file`.
   */
  datatype UploadResult =
    | Completed(fileCount: nat, attempted: seq<string>, uploaded: nat, progress: seq<nat>, s3Path: string)
    | Raised(fileCount: nat, attempted: seq<string>, uploaded: nat, progress: seq<nat>)

  /**
   * The outcome of an upload stated without the loop: the first call that
   * raises ends the run right after its own attempt; otherwise every walked
   * file is put once, in walk order.
   */
  function UploadSpec(walk: seq<WalkEntry>, bucket: string, prefix: string, succeeds: nat -> bool): UploadResult {
    var paths := WalkPaths(walk);
    var k := LeadingSuccesses(succeeds, |paths|);
    if k == |paths| then
      Completed(FileCount(walk), KeysOf(prefix, paths), k, ProgressMarks(k), S3Uri(bucket, prefix))
    else
      Raised(FileCount(walk), KeysOf(prefix, paths[..k + 1]), k, ProgressMarks(k))
  }

  /**
   * The loop's state after `uploaded` successful calls: every call so far
   * returned normally, the keys attempted are those of the first `uploaded`
   * walked paths, and a progress line was printed at each multiple of 10.
   */
  ghost predicate UploadedSoFar(paths: seq<string>, prefix: string, succeeds: nat -> bool,
                                uploaded: nat, attempted: seq<string>, progress: seq<nat>)
  {
    && uploaded <= |paths|
    && LeadingSuccesses(succeeds, uploaded) == uploaded
    && attempted == KeysOf(prefix, paths[..uploaded])
    && progress == ProgressMarks(uploaded)
  }

  /** One more successful call keeps UploadedSoFar. */
  lemma UploadedOneMore(paths: seq<string>, prefix: string, succeeds: nat -> bool,
                        uploaded: nat, attempted: seq<string>, progress: seq<nat>)
    requires UploadedSoFar(paths, prefix, succeeds, uploaded, attempted, progress)
    requires uploaded < |paths| && succeeds(uploaded)
    ensures UploadedSoFar(paths, prefix, succeeds, uploaded + 1, attempted + [S3Key(prefix, paths[uploaded])],
                          if (uploaded + 1) % 10 == 0 then progress + [uploaded + 1] else progress)
  {
    KeysOfStep(prefix, paths, uploaded);
  }

  /**
   * A raise from the call for walked file `uploaded`, after UploadedSoFar
   * held for the earlier ones, ends the upload as UploadSpec says.
   */
  lemma RaisedHere(walk: seq<WalkEntry>, bucket: string, prefix: string, succeeds: nat -> bool,
                   uploaded: nat, attempted: seq<string>, progress: seq<nat>)
    requires uploaded < |WalkPaths(walk)| && !succeeds(uploaded)
    requires |attempted| == uploaded + 1 && attempted[uploaded] == S3Key(prefix, WalkPaths(walk)[uploaded])
    requires UploadedSoFar(WalkPaths(walk), prefix, succeeds, uploaded, attempted[..uploaded], progress)
    ensures UploadSpec(walk, bucket, prefix, succeeds) == Raised(FileCount(walk), attempted, uploaded, progress)
  {
    RaisedAt(walk, bucket, prefix, succeeds, uploaded);
    KeysOfStep(prefix, WalkPaths(walk), uploaded);
    assert attempted == attempted[..uploaded] + [attempted[uploaded]];
  }

  /** Reaching the end of the walk completes the upload as UploadSpec says. */
  lemma CompletedHere(walk: seq<WalkEntry>, bucket: string, prefix: string, succeeds: nat -> bool,
                      uploaded: nat, attempted: seq<string>, progress: seq<nat>)
    requires UploadedSoFar(WalkPaths(walk), prefix, succeeds, uploaded, attempted, progress)
    requires uploaded == |WalkPaths(walk)|
    ensures UploadSpec(walk, bucket, prefix, succeeds)
         == Completed(FileCount(walk), attempted, uploaded, progress, S3Uri(bucket, prefix))
  {
    assert WalkPaths(walk)[..uploaded] == WalkPaths(walk);
    CompletedWhenAllSucceed(walk, bucket, prefix, succeeds);
  }

  /** The nested loop of `upload_to_s3`, lines 55-68. */
  method UploadToS3(walk: seq<WalkEntry>, bucket: string, prefix: string, succeeds: nat -> bool)
    returns (res: UploadResult)
    ensures res == UploadSpec(walk, bucket, prefix, succeeds)
  {
    var fileCount := FileCount(walk);
    var uploaded: nat := 0;
    var attempted: seq<string> := [];
    var progress: seq<nat> := [];
    ghost var paths := WalkPaths(walk);
    var e := 0;
    while e < |walk|
      invariant 0 <= e <= |walk|
      invariant UploadedSoFar(paths, prefix, succeeds, uploaded, attempted, progress)
      invariant WalkPaths(walk[..e]) == paths[..uploaded]
    {
      WalkStep(walk, e);
      var raised;
      uploaded, attempted, progress, raised := UploadFiles(walk[e], prefix, succeeds, paths, uploaded, attempted, progress);
      if raised {
        RaisedHere(walk, bucket, prefix, succeeds, uploaded, attempted, progress);
        res := Raised(fileCount, attempted, uploaded, progress);
        return;
      }
      e := e + 1;
    }
    assert walk[..e] == walk;
    CompletedHere(walk, bucket, prefix, succeeds, uploaded, attempted, progress);
    res := Completed(fileCount, attempted, uploaded, progress, S3Uri(bucket, prefix));
  }

  /**
   * The inner loop `for file in files`, for one walk step whose paths sit at
   * positions `uploaded0 ..` of the whole walk. `raised` says that the call
   * for walked file `uploaded` raised; its key is then the last one attempted.
   */
  method UploadFiles(entry: WalkEntry, prefix: string, succeeds: nat -> bool, ghost paths: seq<string>,
                     uploaded0: nat, attempted0: seq<string>, progress0: seq<nat>)
    returns (uploaded: nat, attempted: seq<string>, progress: seq<nat>, raised: bool)
    requires UploadedSoFar(paths, prefix, succeeds, uploaded0, attempted0, progress0)
    requires uploaded0 + |entry.files| <= |paths|
    requires paths[uploaded0..uploaded0 + |entry.files|] == EntryPaths(entry)
    ensures !raised ==> uploaded == uploaded0 + |entry.files|
    ensures !raised ==> UploadedSoFar(paths, prefix, succeeds, uploaded, attempted, progress)
    ensures raised ==> uploaded0 <= uploaded < uploaded0 + |entry.files| && !succeeds(uploaded)
    ensures raised ==> |attempted| == uploaded + 1 && attempted[uploaded] == S3Key(prefix, paths[uploaded])
    ensures raised ==> UploadedSoFar(paths, prefix, succeeds, uploaded, attempted[..uploaded], progress)
  {
    uploaded, attempted, progress := uploaded0, attempted0, progress0;
    var j := 0;
    while j < |entry.files|
      invariant 0 <= j <= |entry.files|
      invariant uploaded == uploaded0 + j
      invariant UploadedSoFar(paths, prefix, succeeds, uploaded, attempted, progress)
    {
      var relativePath := RelativePath(entry.dir, entry.files[j]);
      assert relativePath == paths[uploaded] by {
        assert EntryPaths(entry)[j] == paths[uploaded0..uploaded0 + |entry.files|][j];
      }
      var key := S3Key(prefix, relativePath);
      if !succeeds(uploaded) {
        assert (attempted + [key])[..uploaded] == attempted;
        return uploaded, attempted + [key], progress, true;
      }
      UploadedOneMore(paths, prefix, succeeds, uploaded, attempted, progress);
      attempted := attempted + [key];
      uploaded := uploaded + 1;
      if uploaded % 10 == 0 {
        progress := progress + [uploaded];
      }
      j := j + 1;
    }
    raised := false;
  }

  /**
   * Walk step `e` contributes its files' paths right after those of the
   * earlier steps.
   */
  lemma WalkStep(walk: seq<WalkEntry>, e: nat)
    requires e < |walk|
    ensures var b, n := |WalkPaths(walk[..e])|, |walk[e].files|;
            && b + n <= |WalkPaths(walk)|
            && WalkPaths(walk)[b..b + n] == EntryPaths(walk[e])
            && WalkPaths(walk[..e + 1]) == WalkPaths(walk)[..b + n]
  {
    assert walk[..e + 1][..e] == walk[..e];
    WalkPathsPrefix(walk, e + 1);
  }

  /** One more path adds its key at the end: the step UploadedOneMore and RaisedHere need. */
  lemma KeysOfStep(prefix: string, paths: seq<string>, n: nat)
    requires n < |paths|
    ensures KeysOf(prefix, paths[..n + 1]) == KeysOf(prefix, paths[..n]) + [S3Key(prefix, paths[n])]
  {
  }

  /** UploadSpec when walked file `k` is the first whose call raises; used by RaisedHere. */
  lemma RaisedAt(walk: seq<WalkEntry>, bucket: string, prefix: string, succeeds: nat -> bool, k: nat)
    requires k < |WalkPaths(walk)|
    requires forall i :: 0 <= i < k ==> succeeds(i)
    requires !succeeds(k)
    ensures UploadSpec(walk, bucket, prefix, succeeds)
         == Raised(FileCount(walk), KeysOf(prefix, WalkPaths(walk)[..k + 1]), k, ProgressMarks(k))
  {
  }

  /** UploadSpec when no call raises; used by CompletedHere and AllSucceedCompletes. */
  lemma CompletedWhenAllSucceed(walk: seq<WalkEntry>, bucket: string, prefix: string, succeeds: nat -> bool)
    requires AllUploadsSucceed(walk, succeeds)
    ensures UploadSpec(walk, bucket, prefix, succeeds)
         == Completed(FileCount(walk), KeysOf(prefix, WalkPaths(walk)), |WalkPaths(walk)|,
                      ProgressMarks(|WalkPaths(walk)|), S3Uri(bucket, prefix))
  {
  }

  /** The paths of a prefix of the walk are a prefix of the walk's paths. */
  lemma {:induction false} WalkPathsPrefix(walk: seq<WalkEntry>, e: nat)
    requires e <= |walk|
    ensures WalkPaths(walk[..e]) <= WalkPaths(walk)
    decreases |walk|
  {
    if e < |walk| {
      var init := walk[..|walk| - 1];
      assert init[..e] == walk[..e];
      WalkPathsPrefix(init, e);
    } else {
      assert walk[..e] == walk;
    }
  }

  /** The count printed before uploading is the number of files the walk yields. */
  lemma {:induction false} FileCountIsWalkLength(walk: seq<WalkEntry>)
    ensures FileCount(walk) == |WalkPaths(walk)|
    decreases |walk|
  {
    if walk != [] {
      var init := walk[..|walk| - 1];
      FileCountIsWalkLength(init);
      FileCountSnoc(init, walk[|walk| - 1]);
      assert init + [walk[|walk| - 1]] == walk;
    }
  }

  lemma {:induction false} FileCountSnoc(walk: seq<WalkEntry>, e: WalkEntry)
    ensures FileCount(walk + [e]) == FileCount(walk) + |e.files|
    decreases |walk|
  {
    if walk != [] {
      assert (walk + [e])[1..] == walk[1..] + [e];
      FileCountSnoc(walk[1..], e);
    }
  }

  /** After `n` uploads exactly `n / 10` progress lines have been printed. */
  lemma {:induction false} ProgressMarksCount(n: nat)
    ensures |ProgressMarks(n)| == n / 10
  {
    if n > 0 {
      ProgressMarksCount(n - 1);
    }
  }

  /** A progress line shows counter value `m` iff `m` is a positive multiple of 10 reached by the counter. */
  lemma {:induction false} ProgressMarksExact(n: nat, m: nat)
    ensures m in ProgressMarks(n) <==> 1 <= m <= n && m % 10 == 0
  {
    if n > 0 {
      ProgressMarksExact(n - 1, m);
    }
  }

  /** Normal return: every walked file was put exactly once, in walk order, and `uploaded == file_count`. */
  lemma AllSucceedCompletes(walk: seq<WalkEntry>, bucket: string, prefix: string, succeeds: nat -> bool)
    requires AllUploadsSucceed(walk, succeeds)
    ensures var r := UploadSpec(walk, bucket, prefix, succeeds);
            && r.Completed?
            && r.uploaded == r.fileCount == |r.attempted|
            && r.attempted == KeysOf(prefix, WalkPaths(walk))
            && r.s3Path == "s3://" + bucket + "/" + prefix
            && |r.progress| == r.uploaded / 10
  {
    FileCountIsWalkLength(walk);
    ProgressMarksCount(|WalkPaths(walk)|);
  }

  /**
   * If the call for the file at walk position `k` raises and none before it
   * did, exactly `k` files were uploaded, that file was the last one
   * attempted, and the exception escapes.
   */
  lemma FirstRaiseAborts(walk: seq<WalkEntry>, bucket: string, prefix: string, succeeds: nat -> bool, k: nat)
    requires k < |WalkPaths(walk)|
    requires forall i :: 0 <= i < k ==> succeeds(i)
    requires !succeeds(k)
    ensures var r := UploadSpec(walk, bucket, prefix, succeeds);
            && r.Raised?
            && r.uploaded == k
            && |r.attempted| == k + 1
            && r.attempted[k] == S3Key(prefix, WalkPaths(walk)[k])
            && r.attempted[..k] == KeysOf(prefix, WalkPaths(walk)[..k])
            && |r.progress| == k / 10
  {
    ProgressMarksCount(k);
  }

  /** The upload returns normally iff no call raises. */
  lemma CompletesIffAllSucceed(walk: seq<WalkEntry>, bucket: string, prefix: string, succeeds: nat -> bool)
    ensures UploadSpec(walk, bucket, prefix, succeeds).Completed? <==> AllUploadsSucceed(walk, succeeds)
  {
  }

  /** Distinct relative paths under one prefix get distinct keys: no object is written twice. */
  lemma KeysDistinct(prefix: string, paths: seq<string>)
    requires Distinct(paths)
    ensures Distinct(KeysOf(prefix, paths))
  {
    forall i, j | 0 <= i < j < |paths|
      ensures KeysOf(prefix, paths)[i] != KeysOf(prefix, paths)[j]
    {
      if S3Key(prefix, paths[i]) == S3Key(prefix, paths[j]) {
        S3KeyInjective(prefix, paths[i], paths[j]);
      }
    }
  }

  /**
   * A walk as a file system yields it: directories listed once each, file
   * names without '/' and listed once per directory.
   */
  predicate WellFormedWalk(walk: seq<WalkEntry>) {
    && (forall k, l :: 0 <= k < l < |walk| ==> walk[k].dir != walk[l].dir)
    && (forall k :: 0 <= k < |walk| ==> Distinct(walk[k].files))
    && (forall k, i :: 0 <= k < |walk| && 0 <= i < |walk[k].files| ==> SlashFree(walk[k].files[i]))
  }

  /** Different (directory, file name) pairs give different relative paths. */
  lemma RelativePathsDiffer(d1: string, f1: string, d2: string, f2: string)
    requires SlashFree(f1) && SlashFree(f2)
    requires d1 != d2 || f1 != f2
    ensures RelativePath(d1, f1) != RelativePath(d2, f2)
  {
    var p1, p2 := RelativePath(d1, f1), RelativePath(d2, f2);
    if d1 != "" && d2 == "" {
      assert p1[|d1|] == '/';
    } else if d1 == "" && d2 != "" {
      assert p2[|d2|] == '/';
    } else if d1 != "" && d2 != "" {
      if |f1| < |f2| {
        assert p1[|p1| - |f1| - 1] == '/';
        assert p2[|p2| - |f1| - 1] == f2[|f2| - |f1| - 1];
      } else if |f2| < |f1| {
        assert p2[|p2| - |f2| - 1] == '/';
        assert p1[|p1| - |f2| - 1] == f1[|f1| - |f2| - 1];
      } else if f1 != f2 {
        assert p1[|p1| - |f1|..] == f1;
        assert p2[|p2| - |f2|..] == f2;
      } else {
        assert p1[..|d1|] == d1;
        assert p2[..|d2|] == d2;
      }
    }
  }

  /** Every walked path comes from some walk step. */
  lemma {:induction false} WalkPathsOrigin(walk: seq<WalkEntry>, p: string)
    requires p in WalkPaths(walk)
    ensures exists k, i :: 0 <= k < |walk| && 0 <= i < |walk[k].files| && p == RelativePath(walk[k].dir, walk[k].files[i])
    decreases |walk|
  {
    var init, last := walk[..|walk| - 1], walk[|walk| - 1];
    if p in WalkPaths(init) {
      WalkPathsOrigin(init, p);
      var k, i :| 0 <= k < |init| && 0 <= i < |init[k].files| && p == RelativePath(init[k].dir, init[k].files[i]);
      assert walk[k] == init[k];
    } else {
      var i :| 0 <= i < |last.files| && EntryPaths(last)[i] == p;
      assert p == RelativePath(walk[|walk| - 1].dir, walk[|walk| - 1].files[i]);
    }
  }

  /** A well-formed walk never yields the same relative path twice, so every walked file gets its own key. */
  lemma {:induction false} WalkPathsDistinct(walk: seq<WalkEntry>)
    requires WellFormedWalk(walk)
    ensures Distinct(WalkPaths(walk))
    decreases |walk|
  {
    if walk != [] {
      var init, last := walk[..|walk| - 1], walk[|walk| - 1];
      assert WellFormedWalk(init);
      WalkPathsDistinct(init);
      var a, b := WalkPaths(init), EntryPaths(last);
      forall i, j | 0 <= i < j < |b| ensures b[i] != b[j] {
        RelativePathsDiffer(last.dir, last.files[i], last.dir, last.files[j]);
      }
      forall i, j | 0 <= i < |a| && 0 <= j < |b| ensures a[i] != b[j] {
        WalkPathsOrigin(init, a[i]);
        var k, m :| 0 <= k < |init| && 0 <= m < |init[k].files| && a[i] == RelativePath(init[k].dir, init[k].files[m]);
        assert init[k] == walk[k];
        RelativePathsDiffer(init[k].dir, init[k].files[m], last.dir, last.files[j]);
      }
      assert WalkPaths(walk) == a + b;
    }
  }

  /** Syncing a well-formed walk writes each object key at most once. */
  lemma WalkKeysDistinct(walk: seq<WalkEntry>, prefix: string)
    requires WellFormedWalk(walk)
    ensures Distinct(KeysOf(prefix, WalkPaths(walk)))
  {
    WalkPathsDistinct(walk);
    KeysDistinct(prefix, WalkPaths(walk));
  }
}
