/** Differences between two fact snapshots, and patching with them. */
module FactDiff {

  datatype Json =
    | Null
    | Bool(truth: bool)
    | Number(number: real)
    | Text(text: string)
    | List(items: seq<Json>)
    | Object(fields: map<string, Json>)

  type Snapshot = map<string, Json>

  datatype Change = Change(before: Json, after: Json)

  type Changes = map<string, Change>

  function Get(m: Snapshot, k: string): Json {
    if k in m then m[k] else Null
  }

  /** Whether `k` is present in only one of the two or has different values. */
  predicate Differs(previous: Snapshot, current: Snapshot, k: string) {
    (k in previous || k in current) && !(k in previous && k in current && previous[k] == current[k])
  }

  function Diff(previous: Snapshot, current: Snapshot): Changes {
    map k | k in previous.Keys + current.Keys && Differs(previous, current, k) :: Change(Get(previous, k), Get(current, k))
  }

  /** `diff` has a change, from the old to the new value, for exactly the keys whose presence or
      value differs; null stands for absent. */
  ghost predicate RecordsChanges(previous: Snapshot, current: Snapshot, diff: Changes) {
    forall k ::
      && (k in diff <==> (k in previous) != (k in current) || (k in previous && k in current && previous[k] != current[k]))
      && (k in diff ==>
            diff[k] == Change(if k in previous then previous[k] else Null, if k in current then current[k] else Null))
  }

  /** `diff` records the right change for every key of `seen` that differs, and nothing else. */
  ghost predicate DiffSoFar(previous: Snapshot, current: Snapshot, seen: set<string>, diff: Changes) {
    forall k ::
      && (k in diff <==> k in seen && Differs(previous, current, k))
      && (k in diff ==> diff[k] == Change(Get(previous, k), Get(current, k)))
  }

  lemma DiffSoFarGrows(previous: Snapshot, current: Snapshot, seen: set<string>, diff: Changes, k: string, seen': set<string>)
    requires DiffSoFar(previous, current, seen, diff) && forall x :: x in seen' <==> x in seen || x == k
    ensures DiffSoFar(previous, current, seen',
                      if Differs(previous, current, k) then diff[k := Change(Get(previous, k), Get(current, k))] else diff)
  {
  }

  lemma DiffSoFarIsDiff(previous: Snapshot, current: Snapshot, diff: Changes)
    requires DiffSoFar(previous, current, previous.Keys + current.Keys, diff)
    ensures diff == Diff(previous, current)
  {
    assert diff.Keys == Diff(previous, current).Keys;
  }

  /** The pass over the previous keys: what was removed and what changed. */
  method DiffPrevious(previous: Snapshot, current: Snapshot) returns (diff: Changes)
    ensures DiffSoFar(previous, current, previous.Keys, diff)
  {
    diff := map[];
    ghost var seen: set<string> := {};
    var keys := previous.Keys;
    while keys != {}
      invariant keys <= previous.Keys && (forall k :: k in seen <==> k in previous && k !in keys)
      invariant DiffSoFar(previous, current, seen, diff)
      decreases |keys|
    {
      var k :| k in keys;
      DiffSoFarGrows(previous, current, seen, diff, k, seen + {k});
      keys, seen := keys - {k}, seen + {k};
      if k !in current {
        diff := diff[k := Change(previous[k], Null)];
      } else if previous[k] != current[k] {
        diff := diff[k := Change(previous[k], current[k])];
      }
    }
    assert seen == previous.Keys;
  }

  /** Then the pass over the current keys: what was added. */
  method ComputeDiff(previous: Snapshot, current: Snapshot) returns (diff: Changes)
    ensures RecordsChanges(previous, current, diff)
    ensures diff == Diff(previous, current)
  {
    diff := DiffPrevious(previous, current);
    ghost var seen := previous.Keys;
    var keys := current.Keys;
    while keys != {}
      invariant keys <= current.Keys && forall k :: k in seen <==> k in previous || (k in current && k !in keys)
      invariant DiffSoFar(previous, current, seen, diff)
      decreases |keys|
    {
      var k :| k in keys;
      keys := keys - {k};
      if k !in previous {
        DiffSoFarGrows(previous, current, seen, diff, k, seen + {k});
        diff, seen := diff[k := Change(Null, current[k])], seen + {k};
      }
    }
    assert seen == previous.Keys + current.Keys;
    DiffSoFarIsDiff(previous, current, diff);
  }

  // Patching ------------------------------------------------------------------------

  /** Take the new side of every change; a null new side removes the key. */
  function Forward(m: Snapshot, d: Changes): Snapshot {
    map k | k in m.Keys + d.Keys && (k in d ==> d[k].after != Null) :: if k in d then d[k].after else m[k]
  }

  /** Take the old side of every change; a null old side removes the key. */
  function Backward(m: Snapshot, d: Changes): Snapshot {
    map k | k in m.Keys + d.Keys && (k in d ==> d[k].before != Null) :: if k in d then d[k].before else m[k]
  }

  /** Null identified with absent. */
  function Strip(m: Snapshot): Snapshot {
    map k | k in m && m[k] != Null :: m[k]
  }

  function Flip(d: Changes): Changes {
    map k | k in d :: Change(d[k].after, d[k].before)
  }

  lemma {:induction false} StripDropsNulls(m: Snapshot, k: string)
    ensures k in Strip(m) <==> k in m && m[k] != Null
    ensures k in Strip(m) ==> Strip(m)[k] == m[k]
  {
  }

  /** Every null of `b` is already a null of `a`. */
  predicate NullsFrom(a: Snapshot, b: Snapshot) {
    forall k | k in b && b[k] == Null :: k in a && a[k] == Null
  }

  lemma DiffFlips(previous: Snapshot, current: Snapshot)
    ensures Diff(current, previous) == Flip(Diff(previous, current))
  {
    var d, e := Diff(previous, current), Diff(current, previous);
    assert d.Keys == e.Keys;
  }

  lemma BackwardIsForwardFlipped(m: Snapshot, d: Changes)
    ensures Backward(m, d) == Forward(m, Flip(d))
  {
    assert Backward(m, d).Keys == Forward(m, Flip(d)).Keys;
  }

  lemma SameEntries(a: Snapshot, b: Snapshot)
    requires forall k :: k in a <==> k in b
    requires forall k | k in a :: a[k] == b[k]
    ensures a == b
  {
    assert a.Keys == b.Keys;
  }

  /** The diff is empty exactly between equal snapshots. */
  lemma EmptyIffEqual(previous: Snapshot, current: Snapshot)
    ensures Diff(previous, current) == map[] <==> previous == current
  {
    var d := Diff(previous, current);
    if d == map[] {
      forall k | k in previous.Keys + current.Keys ensures k in previous && k in current && previous[k] == current[k] {
        assert k !in d;
      }
      SameEntries(previous, current);
    }
  }

  /** The new side of the diff turns the previous snapshot into the current one, and the old
      side turns it back, null identified with absent. */
  lemma PatchesInvert(previous: Snapshot, current: Snapshot)
    ensures Strip(Forward(previous, Diff(previous, current))) == Strip(current)
    ensures Strip(Backward(current, Diff(previous, current))) == Strip(previous)
  {
    ForwardReaches(previous, current);
    ForwardReaches(current, previous);
    DiffFlips(previous, current);
    BackwardIsForwardFlipped(current, Diff(previous, current));
  }

  lemma ForwardReaches(previous: Snapshot, current: Snapshot)
    ensures Strip(Forward(previous, Diff(previous, current))) == Strip(current)
  {
    SameEntries(Strip(Forward(previous, Diff(previous, current))), Strip(current));
  }

  /** They are exact, nulls and all, just when the target has no null the source lacks. */
  lemma ForwardExactIff(previous: Snapshot, current: Snapshot)
    ensures Forward(previous, Diff(previous, current)) == current <==> NullsFrom(previous, current)
  {
    var patched := Forward(previous, Diff(previous, current));
    if NullsFrom(previous, current) {
      SameEntries(patched, current);
    } else {
      var k :| k in current && current[k] == Null && !(k in previous && previous[k] == Null);
      assert k !in patched;
    }
  }

  lemma PatchesExactIff(previous: Snapshot, current: Snapshot)
    ensures Forward(previous, Diff(previous, current)) == current <==> NullsFrom(previous, current)
    ensures Backward(current, Diff(previous, current)) == previous <==> NullsFrom(current, previous)
  {
    ForwardExactIff(previous, current);
    ForwardExactIff(current, previous);
    DiffFlips(previous, current);
    BackwardIsForwardFlipped(current, Diff(previous, current));
  }

  /** `r` agrees with the current snapshot wherever the previous one does. */
  ghost predicate AgreesWhereSame(r: Snapshot, previous: Snapshot, current: Snapshot) {
    forall k | !Differs(previous, current, k) :: Get(r, k) == Get(current, k)
  }

  lemma {:induction false} ForwardAt(r: Snapshot, previous: Snapshot, current: Snapshot, k: string)
    ensures Get(Forward(r, Diff(previous, current)), k) == if Differs(previous, current, k) then Get(current, k) else Get(r, k)
    ensures Get(Strip(r), k) == Get(r, k)
  {
  }

  lemma {:induction false} StrippedAreEqualIff(a: Snapshot, b: Snapshot)
    requires Strip(a) == a && Strip(b) == b
    ensures a == b <==> forall k :: Get(a, k) == Get(b, k)
  {
    if forall k :: Get(a, k) == Get(b, k) {
      forall k ensures (k in a <==> k in b) && (k in a ==> a[k] == b[k]) {
        assert Get(a, k) == Get(b, k);
        assert (k in a ==> k in Strip(a)) && (k in b ==> k in Strip(b));
      }
      SameEntries(a, b);
    }
  }

  lemma {:induction false} StripIsStripped(m: Snapshot)
    ensures Strip(Strip(m)) == Strip(m)
  {
    SameEntries(Strip(Strip(m)), Strip(m));
  }

  lemma {:induction false} ForwardStaysStripped(r: Snapshot, d: Changes)
    requires Strip(r) == r
    ensures Strip(Forward(r, d)) == Forward(r, d)
  {
    forall k | k in Forward(r, d) ensures Forward(r, d)[k] != Null {
      assert k in r ==> k in Strip(r);
    }
    SameEntries(Strip(Forward(r, d)), Forward(r, d));
  }

  /** Applied to any snapshot without nulls, a diff leads to the current one exactly when
      that snapshot agrees with it on every key the diff does not mention. */
  lemma {:induction false} ForwardReachesIff(r: Snapshot, previous: Snapshot, current: Snapshot)
    requires Strip(r) == r
    ensures Forward(r, Diff(previous, current)) == Strip(current) <==> AgreesWhereSame(r, previous, current)
  {
    var patched := Forward(r, Diff(previous, current));
    ForwardStaysStripped(r, Diff(previous, current));
    StripIsStripped(current);
    StrippedAreEqualIff(patched, Strip(current));
    forall k
      ensures Get(patched, k) == if Differs(previous, current, k) then Get(current, k) else Get(r, k)
      ensures Get(Strip(current), k) == Get(current, k)
    {
      ForwardAt(r, previous, current, k);
      ForwardAt(current, previous, current, k);
    }
  }

  /** No smaller set of changes would do: whatever takes the previous snapshot to the current
      one changes every key whose value the diff changes, and to the same value. */
  lemma {:induction false} DiffIsLeast(previous: Snapshot, current: Snapshot, d: Changes, k: string)
    requires Strip(Forward(previous, d)) == Strip(current)
    requires k in Diff(previous, current) && Get(previous, k) != Get(current, k)
    ensures k in d && d[k].after == Get(current, k)
  {
    var patched := Forward(previous, d);
    assert Get(Strip(patched), k) == Get(Strip(current), k);
    assert Get(patched, k) == Get(Strip(patched), k) && Get(current, k) == Get(Strip(current), k);
  }
}
