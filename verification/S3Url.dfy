/** The artifact addresses the importer uploads to. */
module S3Url {
  import opened Wrappers
  import opened Text

  const SCHEME := "s3://"

  datatype Target = Target(bucket: string, key: string)

  /** Where the first slash is, or the length when there is none. */
  function FirstSlash(s: string): (i: nat)
    ensures i <= |s| && '/' !in s[..i] && (i < |s| ==> s[i] == '/')
  {
    if s == [] || s[0] == '/' then 0
    else
      var i := FirstSlash(s[1..]);
      assert s[..i + 1] == [s[0]] + s[1..][..i];
      i + 1
  }

  /** The bucket up to the first slash and the key after it, neither of them empty. */
  function ParseS3URL(url: string): (r: Option<Target>)
  {
    if !HasPrefix(url, SCHEME) then None
    else
      var trimmed := url[|SCHEME|..];
      var i := FirstSlash(trimmed);
      if i == |trimmed| || i == 0 || i + 1 == |trimmed| then None
      else Some(Target(trimmed[..i], trimmed[i + 1..]))
  }

  function FormatS3URL(bucket: string, key: string): string {
    SCHEME + bucket + "/" + key
  }

  /** What parses is put together again by formatting. */
  lemma ParsedReassembles(url: string)
    requires ParseS3URL(url).Some?
    ensures var t := ParseS3URL(url).value;
            url == FormatS3URL(t.bucket, t.key) && t.bucket != "" && t.key != "" && '/' !in t.bucket
  {
    var trimmed := url[|SCHEME|..];
    var i := FirstSlash(trimmed);
    assert trimmed == trimmed[..i] + "/" + trimmed[i + 1..];
    assert url == SCHEME + trimmed;
  }

  lemma {:induction false} FirstSlashAfter(bucket: string, rest: string)
    requires '/' !in bucket
    ensures FirstSlash(bucket + "/" + rest) == |bucket|
  {
    if bucket != "" {
      assert (bucket + "/" + rest)[1..] == bucket[1..] + "/" + rest;
      FirstSlashAfter(bucket[1..], rest);
    }
  }

  /** What the API names as bucket and key comes back from the address exactly when both are
      there and the bucket holds no slash. */
  lemma FormattedParsesIff(bucket: string, key: string)
    ensures ParseS3URL(FormatS3URL(bucket, key)) == Some(Target(bucket, key)) <==>
            bucket != "" && key != "" && '/' !in bucket
  {
    var url := FormatS3URL(bucket, key);
    var trimmed := bucket + "/" + key;
    assert url[|SCHEME|..] == trimmed;
    if bucket != "" && key != "" && '/' !in bucket {
      FirstSlashAfter(bucket, key);
      assert trimmed[..|bucket|] == bucket && trimmed[|bucket| + 1..] == key;
    } else if ParseS3URL(url) == Some(Target(bucket, key)) {
      ParsedReassembles(url);
    }
  }
}
