/** Importing what was built: every regular file arrives, once, in path order. */
module BundleRoundTrip {
  import opened Wrappers
  import opened Text
  import opened S3Url
  import opened BundleFormat
  import opened BundleImport
  import opened BundleSafety

  // The directory -------------------------------------------------------------------------

  /** The regular files among the first `n` entries of a directory. */
  function Content(dir: seq<DirEntry>, n: nat): map<string, Bytes>
    requires n <= |dir|
  {
    if n == 0 then map[]
    else if dir[n - 1].kind.Regular? then Content(dir, n - 1)[dir[n - 1].path := dir[n - 1].data]
    else Content(dir, n - 1)
  }

  /** A directory has one entry at a path. */
  ghost predicate DistinctPaths(dir: seq<DirEntry>) {
    forall i, j | 0 <= i < j < |dir| :: dir[i].path != dir[j].path
  }

  ghost predicate Describes(lib: Library, content: map<string, Bytes>, a: Artifact) {
    a.path in content && a == Artifact(a.path, lib.kind(a.path), |content[a.path]|, lib.hash(content[a.path]))
  }

  lemma {:induction false} ContentIsListed(dir: seq<DirEntry>, n: nat, p: string)
    requires n <= |dir| && p in Content(dir, n)
    ensures exists i | 0 <= i < n :: dir[i].path == p
  {
    if !(dir[n - 1].kind.Regular? && dir[n - 1].path == p) {
      ContentIsListed(dir, n - 1, p);
    }
  }

  lemma {:induction false} NextIsNew(dir: seq<DirEntry>, n: nat)
    requires n < |dir| && DistinctPaths(dir)
    ensures dir[n].path !in Content(dir, n)
  {
    if dir[n].path in Content(dir, n) {
      ContentIsListed(dir, n, dir[n].path);
    }
  }

  lemma {:induction false} CollectedDescribes(lib: Library, dir: seq<DirEntry>, n: nat, a: Artifact)
    requires n <= |dir| && DistinctPaths(dir) && a in Collected(lib, dir, n)
    ensures Describes(lib, Content(dir, n), a)
  {
    if a in Collected(lib, dir, n - 1) {
      CollectedDescribes(lib, dir, n - 1, a);
      NextIsNew(dir, n - 1);
    }
  }

  lemma {:induction false} ContentIsCollected(lib: Library, dir: seq<DirEntry>, n: nat, p: string)
    requires n <= |dir| && DistinctPaths(dir) && p in Content(dir, n)
    ensures Artifact(p, lib.kind(p), |Content(dir, n)[p]|, lib.hash(Content(dir, n)[p])) in Collected(lib, dir, n)
  {
    if dir[n - 1].kind.Regular? && dir[n - 1].path == p {
      var d := Describe(lib, dir[n - 1]);
      assert Collected(lib, dir, n) == Collected(lib, dir, n - 1) + [d];
      assert Collected(lib, dir, n)[|Collected(lib, dir, n - 1)|] == d;
    } else {
      ContentIsCollected(lib, dir, n - 1, p);
    }
  }

  lemma {:induction false} NextIsOther(lib: Library, dir: seq<DirEntry>, n: nat, a: Artifact)
    requires n < |dir| && DistinctPaths(dir) && a in Collected(lib, dir, n)
    ensures a != Describe(lib, dir[n])
  {
    CollectedDescribes(lib, dir, n, a);
    NextIsNew(dir, n);
  }

  ghost predicate AtMostOnce(s: seq<Artifact>, a: Artifact) {
    multiset(s)[a] <= 1
  }

  lemma {:induction false} CountAppended(s: seq<Artifact>, d: Artifact, a: Artifact)
    requires AtMostOnce(s, a) && (a in s ==> a != d)
    ensures AtMostOnce(s + [d], a)
  {
    assert multiset(s + [d]) == multiset(s) + multiset{d};
    assert a !in s ==> multiset(s)[a] == 0;
  }

  lemma {:induction false} CollectedNext(lib: Library, dir: seq<DirEntry>, n: nat)
    requires n < |dir|
    ensures Collected(lib, dir, n + 1) ==
            if dir[n].kind.Regular? then Collected(lib, dir, n) + [Describe(lib, dir[n])] else Collected(lib, dir, n)
  {
  }

  lemma {:induction false} NextAtMostOnce(lib: Library, dir: seq<DirEntry>, n: nat, a: Artifact)
    requires n < |dir| && DistinctPaths(dir)
    requires AtMostOnce(Collected(lib, dir, n), a)
    ensures AtMostOnce(Collected(lib, dir, n + 1), a)
  {
    CollectedNext(lib, dir, n);
    if dir[n].kind.Regular? {
      if a in Collected(lib, dir, n) {
        NextIsOther(lib, dir, n, a);
      }
      CountAppended(Collected(lib, dir, n), Describe(lib, dir[n]), a);
    }
  }

  lemma {:induction false} CollectedOnce(lib: Library, dir: seq<DirEntry>, n: nat, a: Artifact)
    requires n <= |dir| && DistinctPaths(dir)
    ensures AtMostOnce(Collected(lib, dir, n), a)
  {
    if n > 0 {
      CollectedOnce(lib, dir, n - 1, a);
      NextAtMostOnce(lib, dir, n - 1, a);
    }
  }

  lemma {:induction false} CollectedCount(lib: Library, dir: seq<DirEntry>, n: nat)
    requires n <= |dir| && DistinctPaths(dir)
    ensures |Collected(lib, dir, n)| == |Content(dir, n)|
  {
    if n > 0 {
      CollectedCount(lib, dir, n - 1);
      NextIsNew(dir, n - 1);
    }
  }

  // The manifest's list ---------------------------------------------------------------------

  /** What building makes of the list of artifacts. */
  ghost predicate Lists(lib: Library, dir: seq<DirEntry>, artifacts: seq<Artifact>) {
    PathOrdered(artifacts) && multiset(artifacts) == multiset(Collected(lib, dir, |dir|))
  }

  lemma {:induction false} ListedDescribes(lib: Library, dir: seq<DirEntry>, artifacts: seq<Artifact>, i: nat)
    requires DistinctPaths(dir) && Lists(lib, dir, artifacts) && i < |artifacts|
    ensures Describes(lib, Content(dir, |dir|), artifacts[i])
  {
    assert artifacts[i] in multiset(Collected(lib, dir, |dir|));
    CollectedDescribes(lib, dir, |dir|, artifacts[i]);
  }

  lemma {:induction false} ContentIsInList(lib: Library, dir: seq<DirEntry>, artifacts: seq<Artifact>, p: string)
    requires DistinctPaths(dir) && Lists(lib, dir, artifacts) && p in Content(dir, |dir|)
    ensures exists i | 0 <= i < |artifacts| :: artifacts[i].path == p
  {
    var c := Content(dir, |dir|)[p];
    var a := Artifact(p, lib.kind(p), |c|, lib.hash(c));
    ContentIsCollected(lib, dir, |dir|, p);
    assert a in multiset(artifacts);
  }

  lemma {:induction false} TwiceCountsTwo(s: seq<Artifact>, i: nat, j: nat)
    requires i < j < |s| && s[i] == s[j]
    ensures multiset(s)[s[i]] >= 2
  {
    assert s == s[..j] + s[j..];
    assert s[i] in s[..j] && s[j] in s[j..];
  }

  /** The list is one strictly ordered entry per regular file. */
  lemma {:induction false} ListedStrictly(lib: Library, dir: seq<DirEntry>, artifacts: seq<Artifact>, i: nat, j: nat)
    requires DistinctPaths(dir) && Lists(lib, dir, artifacts) && i < j < |artifacts|
    ensures Less(artifacts[i].path, artifacts[j].path)
  {
    ListedDescribes(lib, dir, artifacts, i);
    ListedDescribes(lib, dir, artifacts, j);
    if artifacts[i].path == artifacts[j].path {
      TwiceCountsTwo(artifacts, i, j);
      CollectedOnce(lib, dir, |dir|, artifacts[i]);
    }
    LessIsTotal(artifacts[i].path, artifacts[j].path);
  }

  // Through the archive ---------------------------------------------------------------------

  /** The temporary directory takes every file of the bundle, each at a path of its own. */
  ghost predicate Places(out: Outside, content: map<string, Bytes>) {
    && (forall i: nat | 1 <= i <= |content| :: out.takes(i))
    && (forall p | p in content :: out.place(ARTIFACTS_PREFIX + p).Some?)
    && (forall p, q | p in content && q in content && p != q ::
          out.place(ARTIFACTS_PREFIX + p) != out.place(ARTIFACTS_PREFIX + q))
  }

  /** The API gives every artifact a usable address and the store takes it. */
  ghost predicate Accepts(out: Outside, i: nat) {
    Addressed(out, i).Some? && out.put(i)
  }

  lemma {:induction false} ArtifactIsNoManifest(p: string)
    ensures ARTIFACTS_PREFIX + p != MANIFEST_NAME
  {
    assert (ARTIFACTS_PREFIX + p)[0] == 'a' && MANIFEST_NAME[0] == 'm';
  }

  /** Every name's temporary file is where the name is placed. */
  ghost predicate IsPlaced(archive: seq<TarEntry>, out: Outside, n: nat)
    requires n <= |archive|
  {
    Unpack(archive, out, n).Some? ==>
      var u := Unpack(archive, out, n).value;
      forall name | name in u.files :: out.place(name) == Some(u.files[name])
  }

  lemma {:induction false} AlwaysPlaced(archive: seq<TarEntry>, out: Outside, n: nat)
    requires n <= |archive|
    ensures IsPlaced(archive, out, n)
  {
    if n > 0 {
      AlwaysPlaced(archive, out, n - 1);
    }
  }

  /** The temporary directory takes the listed files, each at a path of its own. */
  ghost predicate Receives(out: Outside, artifacts: seq<Artifact>) {
    && (forall i: nat | 1 <= i <= |artifacts| :: out.takes(i))
    && (forall i | 0 <= i < |artifacts| :: out.place(ARTIFACTS_PREFIX + artifacts[i].path).Some?)
    && (forall i, j | 0 <= i < j < |artifacts| ::
          out.place(ARTIFACTS_PREFIX + artifacts[i].path) != out.place(ARTIFACTS_PREFIX + artifacts[j].path))
  }

  /** The manifest and the first `n` files have been unpacked. */
  ghost predicate HasUnpacked(r: Option<Unpacked>, bytes: Bytes, read: map<string, Bytes>, artifacts: seq<Artifact>, n: nat)
    requires n <= |artifacts| && forall a | a in artifacts :: a.path in read
  {
    && r.Some? && r.value.manifest == bytes
    && forall i | 0 <= i < n :: Stored(r.value, ARTIFACTS_PREFIX + artifacts[i].path) == Some(read[artifacts[i].path])
  }

  /** The archive of a list unpacks to the manifest and the files as read. */
  lemma {:induction false} ArchiveUnpacks(bytes: Bytes, read: map<string, Bytes>, artifacts: seq<Artifact>, out: Outside, n: nat)
    requires forall a | a in artifacts :: a.path in read
    requires Receives(out, artifacts) && n <= |artifacts|
    ensures HasUnpacked(Unpack(Archive(bytes, read, artifacts), out, n + 1), bytes, read, artifacts, n)
  {
    var archive := Archive(bytes, read, artifacts);
    if n == 0 {
      assert archive[0] == TarEntry(MANIFEST_NAME, TarReg, bytes);
      assert Unpack(archive, out, 0) == Some(Unpacked([], map[], map[]));
    } else {
      ArchiveUnpacks(bytes, read, artifacts, out, n - 1);
      assert archive[n] == ArtifactEntry(read, artifacts[n - 1]);
      ArtifactIsNoManifest(artifacts[n - 1].path);
      AlwaysPlaced(archive, out, n);
      NextFileUnpacks(archive, bytes, read, artifacts, out, n);
    }
  }

  lemma {:induction false} NextFileUnpacks(archive: seq<TarEntry>, bytes: Bytes, read: map<string, Bytes>, artifacts: seq<Artifact>, out: Outside, n: nat)
    requires forall a | a in artifacts :: a.path in read
    requires Receives(out, artifacts) && 0 < n <= |artifacts| && n < |archive|
    requires archive[n] == ArtifactEntry(read, artifacts[n - 1]) && archive[n].name != MANIFEST_NAME
    requires IsPlaced(archive, out, n) && HasUnpacked(Unpack(archive, out, n), bytes, read, artifacts, n - 1)
    ensures HasUnpacked(Unpack(archive, out, n + 1), bytes, read, artifacts, n)
  {
    EntryUnpacks(archive, out, n, archive[n].name);
    forall i | 0 <= i < n - 1
      ensures Stored(Unpack(archive, out, n + 1).value, ARTIFACTS_PREFIX + artifacts[i].path) == Some(read[artifacts[i].path])
    {
      EntryUnpacks(archive, out, n, ARTIFACTS_PREFIX + artifacts[i].path);
    }
  }

  /** One more file adds itself and leaves the files at other places alone. */
  lemma {:induction false} EntryUnpacks(archive: seq<TarEntry>, out: Outside, n: nat, name: string)
    requires n < |archive| && archive[n].typ.TarReg? && archive[n].name != MANIFEST_NAME
    requires Unpack(archive, out, n).Some? && out.place(archive[n].name).Some? && out.takes(n)
    requires name == archive[n].name ||
             (Stored(Unpack(archive, out, n).value, name).Some? && IsPlaced(archive, out, n)
              && out.place(name) != out.place(archive[n].name))
    ensures var v := Unpack(archive, out, n + 1);
            && v.Some? && v.value.manifest == Unpack(archive, out, n).value.manifest
            && Stored(v.value, name) == if name == archive[n].name then Some(archive[n].data) else Stored(Unpack(archive, out, n).value, name)
  {
  }

  /** Once unpacked, an artifact is uploaded exactly when its file still matches. */
  lemma {:induction false} UploadsWhatMatches(lib: Library, u: Unpacked, a: Artifact, out: Outside, i: nat, data: Bytes)
    requires Accepts(out, i) && Stored(u, ARTIFACTS_PREFIX + a.path) == Some(data)
    ensures TryUpload(lib, u, a, out, i).Uploaded? <==> Matches(lib, data, a)
    ensures TryUpload(lib, u, a, out, i).Uploaded? ==> TryUpload(lib, u, a, out, i).upload.data == data
  {
  }

  /** When the outside takes everything, the uploads are the files as read, and there is one
      for every artifact exactly when every file still matches its entry. */
  lemma {:induction false} AllUploadedIffAllMatch(lib: Library, u: Unpacked, read: map<string, Bytes>, artifacts: seq<Artifact>, out: Outside)
    requires forall i | 0 <= i < |artifacts| :: Accepts(out, i)
    requires forall i | 0 <= i < |artifacts| ::
               artifacts[i].path in read && Stored(u, ARTIFACTS_PREFIX + artifacts[i].path) == Some(read[artifacts[i].path])
    ensures var r := UntilFailure(Attempts(lib, u, artifacts, out), |artifacts|);
            && (r.error.None? <==> forall i | 0 <= i < |artifacts| :: Matches(lib, read[artifacts[i].path], artifacts[i]))
            && |r.uploads| <= |artifacts| && (r.error.None? <==> |r.uploads| == |artifacts|)
            && forall i | 0 <= i < |r.uploads| :: r.uploads[i].data == read[artifacts[i].path]
  {
    var attempts := Attempts(lib, u, artifacts, out);
    UploadsAreThePrefix(attempts, |artifacts|);
    forall i | 0 <= i < |artifacts|
      ensures attempts[i].Uploaded? <==> Matches(lib, read[artifacts[i].path], artifacts[i])
      ensures attempts[i].Uploaded? ==> attempts[i].upload.data == read[artifacts[i].path]
    {
      UploadsWhatMatches(lib, u, artifacts[i], out, i, read[artifacts[i].path]);
    }
  }

  // The theorem -----------------------------------------------------------------------------

  /** The file holds what it held when it was collected, as far as size and digest can tell. */
  ghost predicate Unchanged(lib: Library, dir: seq<DirEntry>, read: map<string, Bytes>, p: string)
    requires p in Content(dir, |dir|) && p in read
  {
    var c := Content(dir, |dir|)[p];
    |read[p]| == |c| && EqualFold(lib.hash(read[p]), lib.hash(c))
  }

  /** The signed manifest of a directory passes every check of its own archive's import. */
  lemma {:induction false} BuiltManifestVerifies(lib: Library, m: Manifest, u: Unpacked, now: int, images: seq<string>)
    requires Sound(lib) && m == Signed(lib, Unsigned(lib, now, images, m.artifacts))
    requires u.manifest == lib.encode(m)
    ensures Check(lib, Some(u)) == Good(m, u)
  {
    assert m.(signature := "") == Unsigned(lib, now, images, m.artifacts).(signature := "");
  }

  /** Everything on the import side works. */
  ghost predicate Willing(out: Outside, content: map<string, Bytes>) {
    Places(out, content) && forall i: nat | i < |content| :: Accepts(out, i)
  }

  /** The manifest that building a directory makes. */
  ghost predicate BuiltFrom(lib: Library, dir: seq<DirEntry>, m: Manifest, now: int, images: seq<string>) {
    m == Signed(lib, Unsigned(lib, now, images, m.artifacts)) && Lists(lib, dir, m.artifacts)
  }

  /** A built manifest lists exactly the regular files of the directory, strictly by path. */
  lemma {:induction false} ManifestListsTheFiles(lib: Library, dir: seq<DirEntry>, artifacts: seq<Artifact>)
    requires DistinctPaths(dir) && Lists(lib, dir, artifacts)
    ensures |artifacts| == |Content(dir, |dir|)|
    ensures forall i | 0 <= i < |artifacts| :: Describes(lib, Content(dir, |dir|), artifacts[i])
    ensures forall i, j | 0 <= i < j < |artifacts| :: Less(artifacts[i].path, artifacts[j].path)
    ensures forall p | p in Content(dir, |dir|) :: exists i | 0 <= i < |artifacts| :: artifacts[i].path == p
  {
    CollectedCount(lib, dir, |dir|);
    assert |multiset(artifacts)| == |multiset(Collected(lib, dir, |dir|))|;
    forall i | 0 <= i < |artifacts| ensures Describes(lib, Content(dir, |dir|), artifacts[i]) {
      ListedDescribes(lib, dir, artifacts, i);
    }
    forall i, j | 0 <= i < j < |artifacts| ensures Less(artifacts[i].path, artifacts[j].path) {
      ListedStrictly(lib, dir, artifacts, i, j);
    }
    forall p | p in Content(dir, |dir|) ensures exists i | 0 <= i < |artifacts| :: artifacts[i].path == p {
      ContentIsInList(lib, dir, artifacts, p);
    }
  }

  lemma {:induction false} MatchesIffUnchanged(lib: Library, dir: seq<DirEntry>, read: map<string, Bytes>, artifacts: seq<Artifact>)
    requires DistinctPaths(dir) && Lists(lib, dir, artifacts)
    requires forall p | p in Content(dir, |dir|) :: p in read
    requires forall a | a in artifacts :: a.path in read
    ensures (forall i | 0 <= i < |artifacts| :: Matches(lib, read[artifacts[i].path], artifacts[i]))
            <==> forall p | p in Content(dir, |dir|) :: Unchanged(lib, dir, read, p)
  {
    ManifestListsTheFiles(lib, dir, artifacts);
    forall i | 0 <= i < |artifacts|
      ensures Matches(lib, read[artifacts[i].path], artifacts[i]) <==> Unchanged(lib, dir, read, artifacts[i].path)
    {
      assert Describes(lib, Content(dir, |dir|), artifacts[i]);
    }
  }

  lemma {:induction false} ListIsReceived(lib: Library, dir: seq<DirEntry>, artifacts: seq<Artifact>, out: Outside)
    requires DistinctPaths(dir) && Lists(lib, dir, artifacts) && Places(out, Content(dir, |dir|))
    ensures Receives(out, artifacts)
  {
    ManifestListsTheFiles(lib, dir, artifacts);
    PathsDiffer(artifacts);
    forall i | 0 <= i < |artifacts| ensures artifacts[i].path in Content(dir, |dir|) {
      assert Describes(lib, Content(dir, |dir|), artifacts[i]);
    }
  }

  lemma {:induction false} BuiltArchiveUnpacks(lib: Library, dir: seq<DirEntry>, read: map<string, Bytes>, bytes: Bytes, artifacts: seq<Artifact>, out: Outside)
    requires DistinctPaths(dir) && Lists(lib, dir, artifacts) && Places(out, Content(dir, |dir|))
    requires forall a | a in artifacts :: a.path in read
    ensures var archive := Archive(bytes, read, artifacts);
            HasUnpacked(Unpack(archive, out, |archive|), bytes, read, artifacts, |artifacts|)
  {
    ListIsReceived(lib, dir, artifacts, out);
    ArchiveUnpacks(bytes, read, artifacts, out, |artifacts|);
  }

  lemma {:induction false} ListIsAccepted(lib: Library, dir: seq<DirEntry>, artifacts: seq<Artifact>, out: Outside)
    requires DistinctPaths(dir) && Lists(lib, dir, artifacts) && Willing(out, Content(dir, |dir|))
    ensures |artifacts| == |Content(dir, |dir|)|
    ensures forall i | 0 <= i < |artifacts| :: Accepts(out, i)
  {
    ManifestListsTheFiles(lib, dir, artifacts);
  }

  /** Importing what was built from a directory, into an outside where everything works,
      uploads the files as they were read into the archive, in strict path order, and
      succeeds with the same manifest exactly when no regular file changed in between. */
  lemma {:induction false} ImportOfBuilt(lib: Library, dir: seq<DirEntry>, read: map<string, Bytes>, m: Manifest, now: int, images: seq<string>, out: Outside)
    requires Sound(lib) && DistinctPaths(dir) && BuiltFrom(lib, dir, m, now, images)
    requires forall p | p in Content(dir, |dir|) :: p in read
    requires forall a | a in m.artifacts :: a.path in read
    requires Willing(out, Content(dir, |dir|))
    ensures var o := ImportOutcome(lib, Archive(lib.encode(m), read, m.artifacts), out);
            && (o.error.None? <==> forall p | p in Content(dir, |dir|) :: Unchanged(lib, dir, read, p))
            && (o.error.None? <==> o.manifest == Some(m))
            && (o.error.None? <==> |o.uploads| == |Content(dir, |dir|)|)
            && |o.uploads| <= |m.artifacts|
            && forall i | 0 <= i < |o.uploads| :: o.uploads[i].data == read[m.artifacts[i].path]
  {
    var archive := Archive(lib.encode(m), read, m.artifacts);
    BuiltArchiveUnpacks(lib, dir, read, lib.encode(m), m.artifacts, out);
    ListIsAccepted(lib, dir, m.artifacts, out);
    var u := Unpack(archive, out, |archive|).value;
    BuiltManifestVerifies(lib, m, u, now, images);
    AllUploadedIffAllMatch(lib, u, read, m.artifacts, out);
    MatchesIffUnchanged(lib, dir, read, m.artifacts);
  }

  lemma {:induction false} PathsDiffer(artifacts: seq<Artifact>)
    requires forall i, j | 0 <= i < j < |artifacts| :: Less(artifacts[i].path, artifacts[j].path)
    ensures forall i, j | 0 <= i < j < |artifacts| :: artifacts[i].path != artifacts[j].path
  {
    forall i, j | 0 <= i < j < |artifacts| ensures artifacts[i].path != artifacts[j].path {
      LessIsStrict(artifacts[i].path);
    }
  }

  /** Of an unchanged directory, importing uploads exactly the regular files, with their
      bytes, each once and in path order. */
  lemma {:induction false} RoundTrip(lib: Library, dir: seq<DirEntry>, m: Manifest, now: int, images: seq<string>, out: Outside)
    requires Sound(lib) && DistinctPaths(dir) && BuiltFrom(lib, dir, m, now, images)
    requires Willing(out, Content(dir, |dir|))
    ensures forall a | a in m.artifacts :: a.path in Content(dir, |dir|)
    ensures var content := Content(dir, |dir|);
            var o := ImportOutcome(lib, Archive(lib.encode(m), content, m.artifacts), out);
            && o.error.None? && o.manifest == Some(m)
            && |o.uploads| == |m.artifacts| == |content|
            && (forall i | 0 <= i < |m.artifacts| :: o.uploads[i].data == content[m.artifacts[i].path])
            && (forall i, j | 0 <= i < j < |m.artifacts| :: Less(m.artifacts[i].path, m.artifacts[j].path))
            && (forall p | p in content :: exists i | 0 <= i < |m.artifacts| :: m.artifacts[i].path == p)
  {
    var content := Content(dir, |dir|);
    ManifestListsTheFiles(lib, dir, m.artifacts);
    ImportOfBuilt(lib, dir, content, m, now, images, out);
  }
}
