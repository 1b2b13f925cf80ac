/** What importing guarantees of any archive. */
module BundleSafety {
  import opened Wrappers
  import opened BundleFormat
  import opened BundleImport

  /** `up` carries the unpacked content of `a`, and that is what the manifest describes. */
  ghost predicate Faithful(lib: Library, u: Unpacked, a: Artifact, up: Upload) {
    && Stored(u, ARTIFACTS_PREFIX + a.path) == Some(up.data)
    && Matches(lib, up.data, a) && up.size == a.size && up.sha256 == a.sha256
  }

  lemma {:induction false} UploadsAreThePrefix(attempts: seq<Attempt>, n: nat)
    requires n <= |attempts|
    ensures var r := UntilFailure(attempts, n);
            && |r.uploads| <= n && (r.error.None? <==> |r.uploads| == n)
            && (forall i | 0 <= i < |r.uploads| :: attempts[i] == Uploaded(r.uploads[i]))
            && (r.error.Some? ==> attempts[|r.uploads|] == Failed(r.error.value))
  {
    if n > 0 {
      UploadsAreThePrefix(attempts, n - 1);
    }
  }

  lemma {:induction false} UploadedIsFaithful(lib: Library, u: Unpacked, a: Artifact, out: Outside, i: nat, up: Upload)
    requires TryUpload(lib, u, a, out, i) == Uploaded(up)
    ensures Faithful(lib, u, a, up)
  {
  }

  lemma {:induction false} UploadsAreFaithful(lib: Library, u: Unpacked, artifacts: seq<Artifact>, out: Outside)
    ensures var r := UntilFailure(Attempts(lib, u, artifacts, out), |artifacts|);
            && |r.uploads| <= |artifacts| && (r.error.None? <==> |r.uploads| == |artifacts|)
            && forall i | 0 <= i < |r.uploads| :: Faithful(lib, u, artifacts[i], r.uploads[i])
  {
    var attempts := Attempts(lib, u, artifacts, out);
    UploadsAreThePrefix(attempts, |artifacts|);
    var r := UntilFailure(attempts, |artifacts|);
    forall i | 0 <= i < |r.uploads| ensures Faithful(lib, u, artifacts[i], r.uploads[i]) {
      assert attempts[i] == TryUpload(lib, u, artifacts[i], out, i);
      UploadedIsFaithful(lib, u, artifacts[i], out, i, r.uploads[i]);
    }
  }

  /** For any archive: nothing is uploaded unless the manifest verified; then the uploads are
      those of a prefix of its list, each with the unpacked bytes, of the size and digest
      the manifest gives; and all of them exactly when the import succeeds. */
  lemma {:induction false} ImportIsSafe(lib: Library, archive: seq<TarEntry>, out: Outside)
    ensures var o := ImportOutcome(lib, archive, out);
            match Check(lib, Unpack(archive, out, |archive|))
            case Bad(error) => o == Outcome([], None, Some(error))
            case Good(m, u) =>
              && Unpack(archive, out, |archive|) == Some(u) && Accepted(lib, u, m)
              && |o.uploads| <= |m.artifacts|
              && (o.error.None? <==> |o.uploads| == |m.artifacts|)
              && (o.error.None? <==> o.manifest == Some(m))
              && (forall i | 0 <= i < |o.uploads| :: Faithful(lib, u, m.artifacts[i], o.uploads[i]))
  {
    match Check(lib, Unpack(archive, out, |archive|))
    case Bad(_) =>
    case Good(m, u) =>
      UploadsAreFaithful(lib, u, m.artifacts, out);
  }

  /** A verifier that accepts only what was signed, as the bytes of one of `signed` without
      its signature. */
  ghost predicate AcceptsOnlySigned(lib: Library, signed: set<Manifest>) {
    forall p: Bytes, s: string, k: string :: lib.verify(p, s, k) ==> exists n | n in signed :: p == lib.encode(n.(signature := ""))
  }

  /** An archive whose manifest differs from every signed one in anything but the signature, be
      it one artifact of the list, uploads nothing. */
  lemma {:induction false} ForgedUploadsNothing(lib: Library, archive: seq<TarEntry>, out: Outside, signed: set<Manifest>, m: Manifest)
    requires Sound(lib) && AcceptsOnlySigned(lib, signed)
    requires Unpack(archive, out, |archive|).Some? && lib.decode(Unpack(archive, out, |archive|).value.manifest) == Some(m)
    requires forall n | n in signed :: m.(signature := "") != n.(signature := "")
    ensures ImportOutcome(lib, archive, out).uploads == [] && ImportOutcome(lib, archive, out).error.Some?
  {
    var u := Unpack(archive, out, |archive|).value;
    GoodIffAccepted(lib, u, m);
    if Accepted(lib, u, m) {
      var n :| n in signed && lib.encode(m.(signature := "")) == lib.encode(n.(signature := ""));
      SignatureCoversTheRest(lib, m, n);
    }
  }

  /** The manifest that counts is the data of the last regular entry of its name. */
  lemma {:induction false} ManifestCameFromTheArchive(archive: seq<TarEntry>, out: Outside, n: nat) returns (i: nat)
    requires n <= |archive| && Unpack(archive, out, n).Some? && Unpack(archive, out, n).value.manifest != []
    ensures i < n && archive[i].typ.TarReg? && archive[i].name == "manifest.yaml"
    ensures archive[i].data == Unpack(archive, out, n).value.manifest
    ensures forall k | i < k < n :: !(archive[k].typ.TarReg? && archive[k].name == "manifest.yaml")
  {
    var e := archive[n - 1];
    if e.typ.TarReg? && e.name == MANIFEST_NAME {
      i := n - 1;
    } else {
      i := ManifestCameFromTheArchive(archive, out, n - 1);
    }
  }

  /** An entry has to be placed when it is a directory or a file other than the manifest. */
  predicate NeedsPlace(e: TarEntry) {
    e.typ.TarDir? || (e.typ.TarReg? && e.name != "manifest.yaml")
  }

  /** Unpacking fails exactly at an entry that has no place or is not taken there. */
  lemma {:induction false} UnpackFailsIff(archive: seq<TarEntry>, out: Outside, n: nat)
    requires n <= |archive|
    ensures Unpack(archive, out, n).None? <==>
            exists i | 0 <= i < n :: NeedsPlace(archive[i]) && (out.place(archive[i].name).None? || !out.takes(i))
  {
    if n > 0 {
      UnpackFailsIff(archive, out, n - 1);
    }
  }

  /** The names unpacked are those of the regular entries other than the manifest. */
  lemma {:induction false} FilesAreTheEntries(archive: seq<TarEntry>, out: Outside, n: nat, name: string)
    requires n <= |archive| && Unpack(archive, out, n).Some?
    ensures name in Unpack(archive, out, n).value.files <==>
            name != "manifest.yaml" && exists i | 0 <= i < n :: archive[i].typ.TarReg? && archive[i].name == name
  {
    if n > 0 {
      FilesAreTheEntries(archive, out, n - 1, name);
    }
  }

  /** What a temporary file holds came out of the archive: it is the data of a regular entry
      whose name is placed at that file, and no later entry is placed there. */
  lemma {:induction false} StoredCameFromTheArchive(archive: seq<TarEntry>, out: Outside, n: nat, path: string)
    requires n <= |archive| && Unpack(archive, out, n).Some?
    requires path in Unpack(archive, out, n).value.disk
    ensures exists i | 0 <= i < n ::
              LastAt(archive, out, n, path, i) && archive[i].data == Unpack(archive, out, n).value.disk[path]
  {
    var e := archive[n - 1];
    if WritesTo(e, out, path) {
      assert LastAt(archive, out, n, path, n - 1);
    } else {
      StoredCameFromTheArchive(archive, out, n - 1, path);
      var i :| 0 <= i < n - 1 && LastAt(archive, out, n - 1, path, i)
               && archive[i].data == Unpack(archive, out, n - 1).value.disk[path];
      assert LastAt(archive, out, n, path, i);
    }
  }

  ghost predicate WritesTo(e: TarEntry, out: Outside, path: string) {
    e.typ.TarReg? && e.name != MANIFEST_NAME && out.place(e.name) == Some(path)
  }

  ghost predicate LastAt(archive: seq<TarEntry>, out: Outside, n: nat, path: string, i: nat)
    requires n <= |archive|
  {
    && i < n && WritesTo(archive[i], out, path)
    && forall k | i < k < n :: !WritesTo(archive[k], out, path)
  }
}
