/** Importing a bundle: unpack, verify, then register and upload artifact by artifact. */
module BundleImport {
  import opened Wrappers
  import opened Text
  import opened S3Url
  import opened BundleFormat

  /** What unpacking leaves behind: the manifest, the temporary file of every entry by name,
      and what those files hold. Two names may share a file, as "a" and "/a" do. */
  datatype Unpacked = Unpacked(manifest: Bytes, files: map<string, string>, disk: map<string, Bytes>)

  datatype ImportError =
    | NotUnpacked | NoManifest | BadManifest | BadVersion | NoSignature | BadSignature
    | MissingArtifact | SizeMismatch | DigestMismatch | NotRegistered | BadAddress | NotUploaded

  /** The API's answer to a registration. */
  datatype Response = Response(bucket: string, key: string, url: string)

  /** What the outside does: the path a name is joined to, if that path begins with the
      temporary directory's (as a string, which a sibling whose name continues it also does);
      whether the file system takes the i-th entry there, which it does not when a file is in
      the way of a directory or a directory in the way of a file; and how the registration
      and the upload of the i-th artifact go. */
  datatype Outside = Outside(
    place: string -> Option<string>, takes: nat -> bool, register: nat -> Option<Response>, put: nat -> bool)

  datatype Upload = Upload(target: Target, data: Bytes, size: nat, sha256: string)

  datatype Outcome = Outcome(uploads: seq<Upload>, manifest: Option<Manifest>, error: Option<ImportError>)

  // Unpacking -----------------------------------------------------------------------------

  /** What has been unpacked after the first `n` entries; the last manifest seen counts. */
  function Unpack(archive: seq<TarEntry>, out: Outside, n: nat): (r: Option<Unpacked>)
    requires n <= |archive|
    ensures r.Some? ==> forall name | name in r.value.files :: r.value.files[name] in r.value.disk
  {
    if n == 0 then Some(Unpacked([], map[], map[]))
    else
      match Unpack(archive, out, n - 1)
      case None => None
      case Some(u) =>
        var e := archive[n - 1];
        if e.typ.TarDir? then (if out.place(e.name).Some? && out.takes(n - 1) then Some(u) else None)
        else if e.typ.TarOther? then Some(u)
        else if e.name == MANIFEST_NAME then Some(u.(manifest := e.data))
        else
          match out.place(e.name)
          case None => None
          case Some(path) =>
            if !out.takes(n - 1) then None
            else Some(u.(files := u.files[e.name := path], disk := u.disk[path := e.data]))
  }

  lemma {:induction false} UnpackStaysFailed(archive: seq<TarEntry>, out: Outside, n: nat, k: nat)
    requires n <= k <= |archive| && Unpack(archive, out, n).None?
    ensures Unpack(archive, out, k).None?
  {
    if n < k {
      UnpackStaysFailed(archive, out, n, k - 1);
    }
  }

  method UnpackArchive(archive: seq<TarEntry>, out: Outside) returns (r: Option<Unpacked>)
    ensures r == Unpack(archive, out, |archive|)
  {
    var manifest: Bytes := [];
    var files: map<string, string> := map[];
    var disk: map<string, Bytes> := map[];
    for i := 0 to |archive|
      invariant Unpack(archive, out, i) == Some(Unpacked(manifest, files, disk))
    {
      var e := archive[i];
      var path := out.place(e.name);
      if e.typ.TarDir? {
        if path.None? || !out.takes(i) {
          UnpackStaysFailed(archive, out, i + 1, |archive|);
          return None;
        }
        continue;
      }
      if !e.typ.TarReg? {
        continue;
      }
      if e.name == MANIFEST_NAME {
        manifest := e.data;
        continue;
      }
      if path.None? || !out.takes(i) {
        UnpackStaysFailed(archive, out, i + 1, |archive|);
        return None;
      }
      disk := disk[path.value := e.data];
      files := files[e.name := path.value];
    }
    r := Some(Unpacked(manifest, files, disk));
  }

  /** What the temporary file of a name holds. */
  function Stored(u: Unpacked, name: string): Option<Bytes> {
    if name in u.files && u.files[name] in u.disk then Some(u.disk[u.files[name]]) else None
  }

  // Verification ----------------------------------------------------------------------------

  datatype Checked = Good(manifest: Manifest, unpacked: Unpacked) | Bad(error: ImportError)

  /** The manifest, once everything about it but its artifacts has been checked. */
  function Check(lib: Library, u: Option<Unpacked>): Checked {
    if u.None? then Bad(NotUnpacked)
    else if u.value.manifest == [] then Bad(NoManifest)
    else
      match lib.decode(u.value.manifest)
      case None => Bad(BadManifest)
      case Some(m) =>
        if m.version != VERSION then Bad(BadVersion)
        else if m.signature == "" then Bad(NoSignature)
        else if !lib.verify(SigningBytes(lib, m), m.signature, m.publicKey) then Bad(BadSignature)
        else Good(m, u.value)
  }

  /** The unpacked manifest is `m`, of the version known, and signed for everything it says. */
  ghost predicate Accepted(lib: Library, u: Unpacked, m: Manifest) {
    && u.manifest != [] && lib.decode(u.manifest) == Some(m)
    && m.version == "1" && m.signature != ""
    && lib.verify(lib.encode(m.(signature := "")), m.signature, m.publicKey)
  }

  lemma {:induction false} GoodIffAccepted(lib: Library, u: Unpacked, m: Manifest)
    ensures Check(lib, Some(u)) == Good(m, u) <==> Accepted(lib, u, m)
  {
  }

  /** The content has the size and, up to letter case, the digest the manifest gives. */
  predicate Matches(lib: Library, data: Bytes, a: Artifact) {
    |data| == a.size && EqualFold(lib.hash(data), a.sha256)
  }

  function AddressOf(r: Response): Option<string> {
    if r.bucket != "" && r.key != "" then Some(FormatS3URL(r.bucket, r.key))
    else if r.url == "" then None
    else Some(r.url)
  }

  datatype Attempt = Uploaded(upload: Upload) | Failed(error: ImportError)

  /** What becomes of the i-th artifact. */
  function TryUpload(lib: Library, u: Unpacked, a: Artifact, out: Outside, i: nat): Attempt {
    var data := Stored(u, ARTIFACTS_PREFIX + a.path);
    if data.None? then Failed(MissingArtifact)
    else if |data.value| != a.size then Failed(SizeMismatch)
    else if !EqualFold(lib.hash(data.value), a.sha256) then Failed(DigestMismatch)
    else
      match out.register(i)
      case None => Failed(NotRegistered)
      case Some(response) =>
        match AddressOf(response)
        case None => Failed(NotRegistered)
        case Some(url) =>
          match ParseS3URL(url)
          case None => Failed(BadAddress)
          case Some(target) =>
            if out.put(i) then Uploaded(Upload(target, data.value, a.size, a.sha256)) else Failed(NotUploaded)
  }

  datatype Progress = Progress(uploads: seq<Upload>, error: Option<ImportError>)

  /** What would become of every artifact, had none before it failed. */
  function Attempts(lib: Library, u: Unpacked, artifacts: seq<Artifact>, out: Outside): seq<Attempt> {
    seq(|artifacts|, i requires 0 <= i < |artifacts| => TryUpload(lib, u, artifacts[i], out, i))
  }

  /** The uploads up to the first of the first `n` attempts that fails, and its error. */
  function UntilFailure(attempts: seq<Attempt>, n: nat): Progress
    requires n <= |attempts|
  {
    if n == 0 then Progress([], None)
    else
      var before := UntilFailure(attempts, n - 1);
      if before.error.Some? then before
      else
        match attempts[n - 1]
        case Uploaded(upload) => Progress(before.uploads + [upload], None)
        case Failed(error) => Progress(before.uploads, Some(error))
  }

  lemma {:induction false} FailureIsFinal(attempts: seq<Attempt>, n: nat, k: nat)
    requires n <= k <= |attempts| && UntilFailure(attempts, n).error.Some?
    ensures UntilFailure(attempts, k) == UntilFailure(attempts, n)
  {
    if n < k {
      FailureIsFinal(attempts, n, k - 1);
    }
  }

  lemma {:induction false} NextAttempt(attempts: seq<Attempt>, n: nat)
    requires n < |attempts| && UntilFailure(attempts, n).error.None?
    ensures attempts[n].Uploaded? ==>
              UntilFailure(attempts, n + 1) == Progress(UntilFailure(attempts, n).uploads + [attempts[n].upload], None)
    ensures attempts[n].Failed? ==>
              UntilFailure(attempts, |attempts|) == Progress(UntilFailure(attempts, n).uploads, Some(attempts[n].error))
  {
    if attempts[n].Failed? {
      FailureIsFinal(attempts, n + 1, |attempts|);
    }
  }

  function ImportOutcome(lib: Library, archive: seq<TarEntry>, out: Outside): Outcome {
    match Check(lib, Unpack(archive, out, |archive|))
    case Bad(error) => Outcome([], None, Some(error))
    case Good(m, u) =>
      var r := UntilFailure(Attempts(lib, u, m.artifacts, out), |m.artifacts|);
      Outcome(r.uploads, if r.error.None? then Some(m) else None, r.error)
  }

  method ValidateArtifact(lib: Library, data: Bytes, a: Artifact) returns (error: Option<ImportError>)
    ensures error.None? <==> Matches(lib, data, a)
    ensures error == Some(SizeMismatch) <==> |data| != a.size
    ensures error.Some? ==> error.value.SizeMismatch? || error.value.DigestMismatch?
  {
    if |data| != a.size {
      return Some(SizeMismatch);
    }
    if !EqualFold(lib.hash(data), a.sha256) {
      return Some(DigestMismatch);
    }
    error := None;
  }

  /** The API gives the i-th artifact an address that parses. */
  function Addressed(out: Outside, i: nat): Option<Target> {
    match out.register(i)
    case None => None
    case Some(response) =>
      match AddressOf(response)
      case None => None
      case Some(url) => ParseS3URL(url)
  }

  /** The target is the bucket and key of the answer, or else the ones its address names. */
  ghost predicate IsNamedBy(target: Target, response: Response) {
    && (response.bucket != "" && response.key != "" ==>
          && "s3://" + target.bucket + "/" + target.key == "s3://" + response.bucket + "/" + response.key
          && ('/' !in response.bucket ==> target == Target(response.bucket, response.key)))
    && (response.bucket == "" || response.key == "" ==> "s3://" + target.bucket + "/" + target.key == response.url)
  }

  lemma {:induction false} AddressedIsNamed(out: Outside, i: nat)
    requires Addressed(out, i).Some?
    ensures out.register(i).Some? && IsNamedBy(Addressed(out, i).value, out.register(i).value)
  {
    var response := out.register(i).value;
    ParsedReassembles(AddressOf(response).value);
    if response.bucket != "" && response.key != "" {
      FormattedParsesIff(response.bucket, response.key);
    }
  }

  /** An artifact is uploaded exactly when its file is there and matches, the API gives it an
      address that parses, and the store takes it; then the bytes are those of the file. */
  method UploadArtifact(lib: Library, u: Unpacked, a: Artifact, out: Outside, i: nat) returns (r: Attempt)
    ensures r.Uploaded? <==>
            && Stored(u, ARTIFACTS_PREFIX + a.path).Some? && Matches(lib, Stored(u, ARTIFACTS_PREFIX + a.path).value, a)
            && Addressed(out, i).Some? && out.put(i)
    ensures r.Uploaded? ==>
              && Some(r.upload.data) == Stored(u, ARTIFACTS_PREFIX + a.path) && Some(r.upload.target) == Addressed(out, i)
              && r.upload.size == |r.upload.data| == a.size && r.upload.sha256 == a.sha256
    ensures r == Failed(MissingArtifact) <==> Stored(u, ARTIFACTS_PREFIX + a.path).None?
    ensures r.Failed? && (r.error.NotRegistered? || r.error.BadAddress?) ==> Addressed(out, i).None?
    ensures r == Failed(NotUploaded) ==> Addressed(out, i).Some? && !out.put(i)
    ensures r == Failed(SizeMismatch) ==> |Stored(u, ARTIFACTS_PREFIX + a.path).value| != a.size
    ensures r == Failed(DigestMismatch) ==> !EqualFold(lib.hash(Stored(u, ARTIFACTS_PREFIX + a.path).value), a.sha256)
    ensures r == Failed(NotRegistered) ==>
              out.register(i).None? || ((out.register(i).value.bucket == "" || out.register(i).value.key == "") && out.register(i).value.url == "")
    ensures r == Failed(BadAddress) ==> out.register(i).Some?
    ensures r.Uploaded? ==> out.register(i).Some? && IsNamedBy(r.upload.target, out.register(i).value)
    ensures r == TryUpload(lib, u, a, out, i)
  {
    var data := Stored(u, ARTIFACTS_PREFIX + a.path);
    if data.None? {
      return Failed(MissingArtifact);
    }
    var invalid := ValidateArtifact(lib, data.value, a);
    if invalid.Some? {
      return Failed(invalid.value);
    }
    var response := out.register(i);
    if response.None? {
      return Failed(NotRegistered);
    }
    var url := AddressOf(response.value);
    if url.None? {
      return Failed(NotRegistered);
    }
    var target := ParseS3URL(url.value);
    if target.None? {
      return Failed(BadAddress);
    }
    if !out.put(i) {
      return Failed(NotUploaded);
    }
    AddressedIsNamed(out, i);
    r := Uploaded(Upload(target.value, data.value, a.size, a.sha256));
  }

  /** The uploads for the artifacts of a verified manifest, in its order. */
  method UploadArtifacts(lib: Library, artifacts: seq<Artifact>, u: Unpacked, out: Outside) returns (done: Progress)
    ensures done == UntilFailure(Attempts(lib, u, artifacts, out), |artifacts|)
  {
    ghost var attempts := Attempts(lib, u, artifacts, out);
    done := Progress([], None);
    for i := 0 to |artifacts|
      invariant done == UntilFailure(attempts, i) && done.error.None?
    {
      var attempt := UploadArtifact(lib, u, artifacts[i], out, i);
      assert attempts[i] == attempt;
      NextAttempt(attempts, i);
      if attempt.Failed? {
        return Progress(done.uploads, Some(attempt.error));
      }
      done := Progress(done.uploads + [attempt.upload], None);
    }
  }

  /** The manifest's own checks, in the order they are made. */
  method VerifyManifest(lib: Library, u: Unpacked) returns (checked: Checked)
    ensures checked == Check(lib, Some(u))
    ensures checked.Good? ==> checked.unpacked == u && Accepted(lib, u, checked.manifest)
    ensures checked == Bad(NoManifest) <==> u.manifest == []
    ensures checked == Bad(BadManifest) <==> u.manifest != [] && lib.decode(u.manifest).None?
    ensures u.manifest != [] && lib.decode(u.manifest).Some? ==>
              var m := lib.decode(u.manifest).value;
              && (checked == Bad(BadVersion) <==> m.version != "1")
              && (checked == Bad(NoSignature) <==> m.version == "1" && m.signature == "")
              && (checked.Good? <==> Accepted(lib, u, m))
  {
    if u.manifest == [] {
      return Bad(NoManifest);
    }
    var decoded := lib.decode(u.manifest);
    if decoded.None? {
      return Bad(BadManifest);
    }
    var m := decoded.value;
    if m.version != VERSION {
      return Bad(BadVersion);
    }
    if m.signature == "" {
      return Bad(NoSignature);
    }
    if !lib.verify(SigningBytes(lib, m), m.signature, m.publicKey) {
      return Bad(BadSignature);
    }
    checked := Good(m, u);
  }

  lemma {:induction false} OutcomeNeedsAccepted(lib: Library, archive: seq<TarEntry>, out: Outside)
    ensures var o := ImportOutcome(lib, archive, out);
            o.uploads != [] || o.error.None? ==>
              exists u, m :: Unpack(archive, out, |archive|) == Some(u) && Accepted(lib, u, m)
  {
    var unpacked := Unpack(archive, out, |archive|);
    var checked := Check(lib, unpacked);
    if checked.Good? {
      GoodIffAccepted(lib, unpacked.value, checked.manifest);
    }
  }

  method Import(lib: Library, archive: seq<TarEntry>, out: Outside) returns (outcome: Outcome)
    ensures outcome == ImportOutcome(lib, archive, out)
    ensures outcome.uploads != [] || outcome.error.None? ==>
              exists u, m :: Unpack(archive, out, |archive|) == Some(u) && Accepted(lib, u, m)
  {
    OutcomeNeedsAccepted(lib, archive, out);
    var unpacked := UnpackArchive(archive, out);
    if unpacked.None? {
      return Outcome([], None, Some(NotUnpacked));
    }
    var checked := VerifyManifest(lib, unpacked.value);
    if checked.Bad? {
      return Outcome([], None, Some(checked.error));
    }
    var done := UploadArtifacts(lib, checked.manifest.artifacts, checked.unpacked, out);
    outcome := Outcome(done.uploads, if done.error.None? then Some(checked.manifest) else None, done.error);
  }
}
