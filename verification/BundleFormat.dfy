/** Bundles: the manifest, the archive, and how both are built from a directory. */
module BundleFormat {
  import opened Wrappers
  import opened Text

  type Bytes = seq<byte>

  const MANIFEST_NAME := "manifest.yaml"
  const ARTIFACTS_PREFIX := "artifacts/"
  const VERSION := "1"

  datatype Artifact = Artifact(path: string, kind: string, size: nat, sha256: string)

  datatype Manifest = Manifest(
    version: string, createdAt: int, signer: string, publicKey: string, signature: string,
    images: seq<string>, artifacts: seq<Artifact>)

  /** The libraries a bundle rests on: digest, kind by file name, YAML and signatures. */
  datatype Library = Library(
    hash: Bytes -> string, kind: string -> string,
    encode: Manifest -> Bytes, decode: Bytes -> Option<Manifest>,
    sign: Bytes -> string, verify: (Bytes, string, string) -> bool,
    recipient: string, publicKey: string)

  /** Decoding undoes encoding, and a signature verifies under the signer's own key. */
  ghost predicate Sound(lib: Library) {
    && (forall m: Manifest :: lib.encode(m) != [] && lib.decode(lib.encode(m)) == Some(m))
    && (forall p: Bytes :: lib.sign(p) != "" && lib.verify(p, lib.sign(p), lib.publicKey))
  }

  /** The manifest without its signature, as it is signed and verified. */
  function SigningBytes(lib: Library, m: Manifest): Bytes {
    lib.encode(m.(signature := ""))
  }

  /** With an encoding that can be undone a signature covers every field but itself: manifests
      that are signed as the same bytes differ in nothing else. */
  lemma {:induction false} SignatureCoversTheRest(lib: Library, m: Manifest, n: Manifest)
    requires Sound(lib) && SigningBytes(lib, m) == SigningBytes(lib, n)
    ensures m.(signature := "") == n.(signature := "")
  {
    assert lib.decode(lib.encode(m.(signature := ""))) == Some(m.(signature := ""));
    assert lib.decode(lib.encode(n.(signature := ""))) == Some(n.(signature := ""));
  }

  datatype NodeKind = Folder | Regular | Special

  /** A directory entry as the walk meets it, its path relative to the root. */
  datatype DirEntry = DirEntry(path: string, kind: NodeKind, data: Bytes)

  datatype TarType = TarDir | TarReg | TarOther

  datatype TarEntry = TarEntry(name: string, typ: TarType, data: Bytes)

  function Describe(lib: Library, e: DirEntry): Artifact {
    Artifact(e.path, lib.kind(e.path), |e.data|, lib.hash(e.data))
  }

  /** The artifacts of the regular files among the first `n` entries. */
  function Collected(lib: Library, dir: seq<DirEntry>, n: nat): seq<Artifact>
    requires n <= |dir|
  {
    if n == 0 then []
    else Collected(lib, dir, n - 1) + if dir[n - 1].kind.Regular? then [Describe(lib, dir[n - 1])] else []
  }

  /** Exactly the regular files are collected, each with its path, kind, size and digest. */
  ghost predicate AreTheRegular(lib: Library, dir: seq<DirEntry>, artifacts: seq<Artifact>) {
    && (forall e | e in dir && e.kind.Regular? :: Artifact(e.path, lib.kind(e.path), |e.data|, lib.hash(e.data)) in artifacts)
    && (forall a | a in artifacts ::
          exists e | e in dir :: e.kind.Regular? && a == Artifact(e.path, lib.kind(e.path), |e.data|, lib.hash(e.data)))
  }

  lemma {:induction false} RegularIsCollected(lib: Library, dir: seq<DirEntry>, n: nat, i: nat)
    requires i < n <= |dir| && dir[i].kind.Regular?
    ensures Artifact(dir[i].path, lib.kind(dir[i].path), |dir[i].data|, lib.hash(dir[i].data)) in Collected(lib, dir, n)
  {
    if i < n - 1 {
      RegularIsCollected(lib, dir, n - 1, i);
    } else {
      assert Collected(lib, dir, n)[|Collected(lib, dir, n - 1)|] == Describe(lib, dir[i]);
    }
  }

  lemma {:induction false} CollectedIsRegular(lib: Library, dir: seq<DirEntry>, n: nat, a: Artifact) returns (i: nat)
    requires n <= |dir| && a in Collected(lib, dir, n)
    ensures i < n && dir[i].kind.Regular? && a == Artifact(dir[i].path, lib.kind(dir[i].path), |dir[i].data|, lib.hash(dir[i].data))
  {
    if a in Collected(lib, dir, n - 1) {
      i := CollectedIsRegular(lib, dir, n - 1, a);
    } else {
      i := n - 1;
    }
  }

  lemma {:induction false} CollectedAreTheRegular(lib: Library, dir: seq<DirEntry>)
    ensures AreTheRegular(lib, dir, Collected(lib, dir, |dir|))
  {
    var all := Collected(lib, dir, |dir|);
    forall e | e in dir && e.kind.Regular? ensures Artifact(e.path, lib.kind(e.path), |e.data|, lib.hash(e.data)) in all {
      var i :| 0 <= i < |dir| && dir[i] == e;
      RegularIsCollected(lib, dir, |dir|, i);
    }
    forall a | a in all
      ensures exists e | e in dir :: e.kind.Regular? && a == Artifact(e.path, lib.kind(e.path), |e.data|, lib.hash(e.data))
    {
      var i := CollectedIsRegular(lib, dir, |dir|, a);
      assert dir[i] in dir;
    }
  }

  lemma {:induction false} SameMembersAreTheRegular(lib: Library, dir: seq<DirEntry>, s: seq<Artifact>, t: seq<Artifact>)
    requires AreTheRegular(lib, dir, s) && multiset(s) == multiset(t)
    ensures AreTheRegular(lib, dir, t)
  {
    forall a ensures a in s <==> a in t {
      assert a in multiset(s) <==> a in multiset(t);
    }
  }

  method CollectArtifacts(lib: Library, dir: seq<DirEntry>) returns (artifacts: seq<Artifact>)
    ensures artifacts == Collected(lib, dir, |dir|)
    ensures AreTheRegular(lib, dir, artifacts)
  {
    CollectedAreTheRegular(lib, dir);
    artifacts := [];
    for i := 0 to |dir|
      invariant artifacts == Collected(lib, dir, i)
    {
      if dir[i].kind.Folder? {
        continue;
      }
      if !dir[i].kind.Regular? {
        continue;
      }
      artifacts := artifacts + [Describe(lib, dir[i])];
    }
  }

  // Sorting by path -----------------------------------------------------------------------

  function InsertByPath(s: seq<Artifact>, a: Artifact): seq<Artifact> {
    if s == [] || !Less(s[0].path, a.path) then [a] + s else [s[0]] + InsertByPath(s[1..], a)
  }

  function SortByPath(s: seq<Artifact>): seq<Artifact> {
    if s == [] then [] else InsertByPath(SortByPath(s[1..]), s[0])
  }

  ghost predicate PathOrdered(s: seq<Artifact>) {
    forall i, j | 0 <= i < j < |s| :: !Less(s[j].path, s[i].path)
  }

  lemma {:induction false} NotLessIsTransitive(a: string, b: string, c: string)
    requires !Less(b, a) && !Less(c, b)
    ensures !Less(c, a)
  {
    if Less(c, a) {
      LessIsTotal(b, c);
      if Less(b, c) {
        LessIsTransitive(b, c, a);
      }
    }
  }

  lemma {:induction false} LessIsAsymmetric(a: string, b: string)
    requires Less(a, b)
    ensures !Less(b, a)
  {
    if Less(b, a) {
      LessIsTransitive(a, b, a);
      LessIsStrict(a);
    }
  }

  lemma {:induction false} InsertByPathAdds(s: seq<Artifact>, a: Artifact)
    ensures multiset(InsertByPath(s, a)) == multiset(s) + multiset{a}
  {
    if s != [] && Less(s[0].path, a.path) {
      assert s == [s[0]] + s[1..];
      InsertByPathAdds(s[1..], a);
    }
  }

  lemma {:induction false} InsertByPathMembers(s: seq<Artifact>, a: Artifact, x: Artifact)
    requires x in InsertByPath(s, a)
    ensures x == a || x in s
  {
    InsertByPathAdds(s, a);
    assert x in multiset(InsertByPath(s, a));
  }

  lemma {:induction false} OrderedCons(x: Artifact, s: seq<Artifact>)
    requires PathOrdered(s) && forall y | y in s :: !Less(y.path, x.path)
    ensures PathOrdered([x] + s)
  {
    var r := [x] + s;
    forall i, j | 0 <= i < j < |r| ensures !Less(r[j].path, r[i].path) {
      assert r[j] == s[j - 1] && s[j - 1] in s;
      if i > 0 {
        assert r[i] == s[i - 1];
      }
    }
  }

  lemma {:induction false} InsertByPathOrders(s: seq<Artifact>, a: Artifact)
    requires PathOrdered(s)
    ensures PathOrdered(InsertByPath(s, a))
  {
    if s == [] || !Less(s[0].path, a.path) {
      forall y | y in s ensures !Less(y.path, a.path) {
        var k :| 0 <= k < |s| && s[k] == y;
        if k > 0 {
          NotLessIsTransitive(a.path, s[0].path, y.path);
        }
      }
      OrderedCons(a, s);
    } else {
      InsertByPathOrders(s[1..], a);
      forall y | y in InsertByPath(s[1..], a) ensures !Less(y.path, s[0].path) {
        InsertByPathMembers(s[1..], a, y);
        if y == a {
          LessIsAsymmetric(s[0].path, a.path);
        } else {
          var k :| 0 <= k < |s[1..]| && s[1..][k] == y;
          assert y == s[k + 1];
        }
      }
      OrderedCons(s[0], InsertByPath(s[1..], a));
    }
  }

  lemma {:induction false} SortByPathSorts(s: seq<Artifact>)
    ensures PathOrdered(SortByPath(s)) && multiset(SortByPath(s)) == multiset(s)
  {
    if s != [] {
      SortByPathSorts(s[1..]);
      InsertByPathOrders(SortByPath(s[1..]), s[0]);
      InsertByPathAdds(SortByPath(s[1..]), s[0]);
      assert s == [s[0]] + s[1..];
    }
  }

  // Writing -----------------------------------------------------------------------------

  function ArtifactEntry(read: map<string, Bytes>, a: Artifact): TarEntry
    requires a.path in read
  {
    TarEntry(ARTIFACTS_PREFIX + a.path, TarReg, read[a.path])
  }

  /** The manifest first, then every artifact's file as it reads at writing time. */
  function Archive(manifest: Bytes, read: map<string, Bytes>, artifacts: seq<Artifact>): seq<TarEntry>
    requires forall a | a in artifacts :: a.path in read
  {
    [TarEntry(MANIFEST_NAME, TarReg, manifest)]
    + seq(|artifacts|, i requires 0 <= i < |artifacts| => ArtifactEntry(read, artifacts[i]))
  }

  /** The archive holds the manifest under its name and then, in the listed order, every file
      under "artifacts/" and its path. */
  ghost predicate Holds(archive: seq<TarEntry>, manifest: Bytes, read: map<string, Bytes>, artifacts: seq<Artifact>)
    requires forall a | a in artifacts :: a.path in read
  {
    && |archive| == |artifacts| + 1
    && archive[0] == TarEntry("manifest.yaml", TarReg, manifest)
    && forall i | 0 <= i < |artifacts| :: archive[i + 1] == TarEntry("artifacts/" + artifacts[i].path, TarReg, read[artifacts[i].path])
  }

  datatype BuildResult =
    | Built(manifest: Manifest, archive: seq<TarEntry>)
    | NoArtifacts
    | FileGone(path: string)

  /** Write the archive; a file that has disappeared since it was collected stops it. */
  method WriteBundle(manifest: Bytes, read: map<string, Bytes>, artifacts: seq<Artifact>)
    returns (archive: seq<TarEntry>, gone: Option<string>)
    ensures gone.None? <==> forall a | a in artifacts :: a.path in read
    ensures gone.None? ==> archive == Archive(manifest, read, artifacts)
    ensures gone.None? ==> Holds(archive, manifest, read, artifacts)
    ensures gone.Some? ==> gone.value !in read && exists a | a in artifacts :: a.path == gone.value
  {
    archive, gone := [TarEntry(MANIFEST_NAME, TarReg, manifest)], None;
    for i := 0 to |artifacts|
      invariant forall k | 0 <= k < i :: artifacts[k].path in read
      invariant |archive| == i + 1 && archive[0] == TarEntry(MANIFEST_NAME, TarReg, manifest)
      invariant forall k | 0 <= k < i :: archive[k + 1] == ArtifactEntry(read, artifacts[k])
    {
      if artifacts[i].path !in read {
        assert artifacts[i] in artifacts;
        return archive, Some(artifacts[i].path);
      }
      archive := archive + [ArtifactEntry(read, artifacts[i])];
    }
  }

  function Unsigned(lib: Library, now: int, images: seq<string>, artifacts: seq<Artifact>): Manifest {
    Manifest(VERSION, now, lib.recipient, lib.publicKey, "", images, artifacts)
  }

  function Signed(lib: Library, m: Manifest): Manifest {
    m.(signature := lib.sign(SigningBytes(lib, m)))
  }

  /** `dir` is what the walk finds, `read` what the files hold when they are archived. */
  method Build(lib: Library, dir: seq<DirEntry>, read: map<string, Bytes>, images: seq<string>, now: int)
    returns (r: BuildResult)
    ensures r.NoArtifacts? <==> forall e | e in dir :: !e.kind.Regular?
    ensures r.Built? ==>
              && r.manifest == Signed(lib, Unsigned(lib, now, images, r.manifest.artifacts))
              && PathOrdered(r.manifest.artifacts)
              && multiset(r.manifest.artifacts) == multiset(Collected(lib, dir, |dir|))
              && (forall a | a in r.manifest.artifacts :: a.path in read)
              && r.archive == Archive(lib.encode(r.manifest), read, r.manifest.artifacts)
    ensures r.Built? ==>
              && r.manifest == Manifest("1", now, lib.recipient, lib.publicKey, r.manifest.signature, images, r.manifest.artifacts)
              && r.manifest.signature == lib.sign(lib.encode(r.manifest.(signature := "")))
              && AreTheRegular(lib, dir, r.manifest.artifacts)
              && Holds(r.archive, lib.encode(r.manifest), read, r.manifest.artifacts)
    ensures r.FileGone? ==> r.path !in read && exists e | e in dir :: e.kind.Regular? && e.path == r.path
  {
    var entries := CollectArtifacts(lib, dir);
    CollectedNonEmpty(lib, dir, |dir|);
    if |entries| == 0 {
      return NoArtifacts;
    }
    SortByPathSorts(entries);
    ghost var unsorted := entries;
    entries := SortByPath(entries);
    SameMembersAreTheRegular(lib, dir, unsorted, entries);
    var manifest := Unsigned(lib, now, images, entries);
    manifest := manifest.(signature := lib.sign(SigningBytes(lib, manifest)));
    var archive, gone := WriteBundle(lib.encode(manifest), read, entries);
    if gone.Some? {
      var a :| a in entries && a.path == gone.value;
      return FileGone(gone.value);
    }
    r := Built(manifest, archive);
  }

  lemma {:induction false} CollectedNonEmpty(lib: Library, dir: seq<DirEntry>, n: nat)
    requires n <= |dir|
    ensures Collected(lib, dir, n) == [] <==> forall i | 0 <= i < n :: !dir[i].kind.Regular?
  {
    if n > 0 {
      CollectedNonEmpty(lib, dir, n - 1);
    }
  }
}
