/**
 * The strings download_model.py derives from a model name: the local
 * directory, the S3 prefix, the object key of each uploaded file and the
 * S3 path reported at the end.
 */
module Locations {
  import opened ModelCatalog

  predicate EndsInSlash(s: string) {
    |s| > 0 && s[|s| - 1] == '/'
  }

  predicate SlashFree(s: string) {
    forall i :: 0 <= i < |s| ==> s[i] != '/'
  }

  /** A non-empty name with no '/' in it: one path component. */
  predicate PlainName(name: string) {
    |name| > 0 && SlashFree(name)
  }

  /** `f"./models/{args.model}"` */
  function LocalPath(name: string): string {
    "./models/" + name
  }

  /** `f"models/{args.model}/"` */
  function S3Prefix(name: string): string {
    "models/" + name + "/"
  }

  /** `f"s3://{s3_bucket}/{s3_prefix}"`, built from the prefix as given (not stripped). */
  function S3Uri(bucket: string, prefix: string): string {
    "s3://" + bucket + "/" + prefix
  }

  /** `base` is `s` with its whole run of trailing '/' removed, and nothing more. */
  predicate StrippedOf(base: string, s: string) {
    && base <= s
    && !EndsInSlash(base)
    && forall i :: |base| <= i < |s| ==> s[i] == '/'
  }

  /** Python's `s.rstrip('/')`. */
  function RStripSlash(s: string): (r: string)
    ensures StrippedOf(r, s)
    decreases |s|
  {
    if EndsInSlash(s) then RStripSlash(s[..|s| - 1]) else s
  }

  /** `f"{s3_prefix.rstrip('/')}/{relative_path}"`: the stripped prefix, one '/', the relative path. */
  function S3Key(prefix: string, relativePath: string): (key: string)
    ensures |key| > |relativePath|
    ensures key == key[..|key| - |relativePath| - 1] + "/" + relativePath
    ensures StrippedOf(key[..|key| - |relativePath| - 1], prefix)
  {
    var base := RStripSlash(prefix);
    assert (base + "/" + relativePath)[..|base|] == base;
    base + "/" + relativePath
  }

  /** Only one string meets StrippedOf for a given `s`, so RStripSlash is the rstrip. */
  lemma StrippedOfUnique(s: string, t: string)
    requires StrippedOf(t, s)
    ensures t == RStripSlash(s)
  {
    var r := RStripSlash(s);
    assert |t| == |r|;
    assert t == s[..|t|] == r;
  }

  /** rstrip is idempotent. */
  lemma RStripSlashIdempotent(s: string)
    ensures RStripSlash(RStripSlash(s)) == RStripSlash(s)
    ensures !EndsInSlash(RStripSlash(s))
  {
  }

  /** Appending '/' changes nothing once stripped. */
  lemma RStripSlashAppendSlash(s: string)
    ensures RStripSlash(s + "/") == RStripSlash(s)
  {
    assert (s + "/")[..|s|] == s;
  }

  /** Under one prefix, different relative paths never share a key. */
  lemma S3KeyInjective(prefix: string, a: string, b: string)
    requires S3Key(prefix, a) == S3Key(prefix, b)
    ensures a == b
  {
    var base := RStripSlash(prefix);
    var ka, kb := S3Key(prefix, a), S3Key(prefix, b);
    StrippedOfUnique(prefix, ka[..|ka| - |a| - 1]);
    StrippedOfUnique(prefix, kb[..|kb| - |b| - 1]);
    assert ka[|base| + 1..] == a;
    assert kb[|base| + 1..] == b;
  }

  /** For a plain model name the key is `models/<name>/<relative path>`. */
  lemma S3KeyOfModel(name: string, relativePath: string)
    requires PlainName(name)
    ensures S3Key(S3Prefix(name), relativePath) == "models/" + name + "/" + relativePath
  {
    var stem := "models/" + name;
    assert S3Prefix(name) == stem + "/";
    RStripSlashAppendSlash(stem);
    assert stem[|stem| - 1] == name[|name| - 1];
    assert RStripSlash(stem) == stem;
  }

  /** Every uploaded object of a model lies under the S3 path that is reported. */
  lemma ObjectUnderReportedUri(bucket: string, name: string, relativePath: string)
    requires PlainName(name)
    ensures "s3://" + bucket + "/" + S3Key(S3Prefix(name), relativePath)
         == S3Uri(bucket, S3Prefix(name)) + relativePath
  {
    S3KeyOfModel(name, relativePath);
  }

  /** Two different plain names never produce the same object key, whatever the relative paths. */
  lemma DistinctModelsDistinctKeys(a: string, b: string, ra: string, rb: string)
    requires PlainName(a) && PlainName(b) && a != b
    ensures S3Key(S3Prefix(a), ra) != S3Key(S3Prefix(b), rb)
  {
    S3KeyOfModel(a, ra);
    S3KeyOfModel(b, rb);
    var ka := "models/" + a + "/" + ra;
    var kb := "models/" + b + "/" + rb;
    if |a| < |b| {
      assert ka[7 + |a|] == '/' != b[|a|] == kb[7 + |a|];
    } else if |b| < |a| {
      assert kb[7 + |b|] == '/' != a[|b|] == ka[7 + |b|];
    } else {
      assert ka[7..7 + |a|] == a != b == kb[7..7 + |b|];
    }
  }

  /** The local directory and the S3 prefix each determine the model name. */
  lemma LocationsDetermineName(a: string, b: string)
    ensures LocalPath(a) == LocalPath(b) ==> a == b
    ensures S3Prefix(a) == S3Prefix(b) ==> a == b
  {
    if LocalPath(a) == LocalPath(b) {
      assert LocalPath(a)[9..] == a;
      assert LocalPath(b)[9..] == b;
    }
    if S3Prefix(a) == S3Prefix(b) {
      assert S3Prefix(a)[7..|S3Prefix(a)| - 1] == a;
      assert S3Prefix(b)[7..|S3Prefix(b)| - 1] == b;
    }
  }

  /** Every name argparse accepts is a plain name. */
  lemma ChoicesArePlainNames(name: string)
    requires IsChoice(name)
    ensures PlainName(name)
  {
    ChoicesAreTheTable(name);
  }
}
