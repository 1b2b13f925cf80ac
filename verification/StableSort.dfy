/** Runs ordered by time, latest first, equal times in their given order. */
module StableSort {
  import opened Wrappers

  const ZERO_TIME: int := 0

  datatype Run = Run(id: nat, machine: nat, startedAt: Option<int>, finishedAt: Option<int>)

  /** The start of a run, else its end, else the zero time. */
  function RunTime(r: Run): int {
    if r.startedAt.Some? then r.startedAt.value
    else if r.finishedAt.Some? then r.finishedAt.value
    else ZERO_TIME
  }

  ghost predicate LatestFirst(s: seq<Run>) {
    forall i, j | 0 <= i < j < |s| :: RunTime(s[i]) >= RunTime(s[j])
  }

  /** Move `x` left past every strictly earlier run at the end of `s`. */
  function InsertRun(s: seq<Run>, x: Run): (r: seq<Run>)
    ensures |r| == |s| + 1
  {
    if s == [] then [x]
    else
      var n := |s| - 1;
      if RunTime(x) > RunTime(s[n]) then InsertRun(s[..n], x) + [s[n]] else s + [x]
  }

  /** The stable sort by time, as insertion sort. */
  function Sort(s: seq<Run>): (r: seq<Run>)
    ensures |r| == |s|
  {
    if s == [] then [] else InsertRun(Sort(s[..|s| - 1]), s[|s| - 1])
  }

  /** The runs of one time, in order. */
  function AtTime(s: seq<Run>, t: int): seq<Run> {
    if s == [] then []
    else AtTime(s[..|s| - 1], t) + if RunTime(s[|s| - 1]) == t then [s[|s| - 1]] else []
  }

  lemma {:induction false} AtTimeConcat(a: seq<Run>, b: seq<Run>, t: int)
    ensures AtTime(a + b, t) == AtTime(a, t) + AtTime(b, t)
  {
    if b == [] {
      assert a + b == a;
    } else {
      var n := |b| - 1;
      AtTimeConcat(a, b[..n], t);
      assert (a + b)[..|a + b| - 1] == a + b[..n];
    }
  }

  lemma {:induction false} PresentIffAtTime(s: seq<Run>, t: int)
    ensures AtTime(s, t) != [] <==> exists i | 0 <= i < |s| :: RunTime(s[i]) == t
  {
    if s != [] {
      var n := |s| - 1;
      PresentIffAtTime(s[..n], t);
      assert forall i | 0 <= i < n :: s[..n][i] == s[i];
    }
  }

  lemma {:induction false} InsertKeepsOrder(s: seq<Run>, x: Run)
    requires LatestFirst(s)
    ensures LatestFirst(InsertRun(s, x))
    ensures forall i | 0 <= i <= |s| :: InsertRun(s, x)[i] == x || InsertRun(s, x)[i] in s
  {
    if s != [] {
      InsertKeepsOrder(s[..|s| - 1], x);
    }
  }

  /** Inserting puts `x` after the others of its own time and moves nothing else about. */
  lemma {:induction false} InsertIsStable(s: seq<Run>, x: Run, t: int)
    requires LatestFirst(s)
    ensures AtTime(InsertRun(s, x), t) == AtTime(s, t) + if RunTime(x) == t then [x] else []
  {
    if s == [] || RunTime(x) <= RunTime(s[|s| - 1]) {
      AtTimeConcat(s, [x], t);
      assert AtTime([x], t) == if RunTime(x) == t then [x] else [];
      assert s == [] ==> s + [x] == [x];
    } else {
      var n := |s| - 1;
      InsertIsStable(s[..n], x, t);
      AtTimeConcat(InsertRun(s[..n], x), [s[n]], t);
      assert AtTime([s[n]], t) == if RunTime(s[n]) == t then [s[n]] else [];
      if RunTime(s[n]) == t {
        assert RunTime(x) != t;
      }
    }
  }

  /** Sorting orders by time and keeps, for each time, its runs in their order: it is
      a permutation, and a stable one. */
  lemma {:induction false} SortIsStable(s: seq<Run>)
    ensures LatestFirst(Sort(s))
    ensures forall t :: AtTime(Sort(s), t) == AtTime(s, t)
  {
    if s != [] {
      var n := |s| - 1;
      SortIsStable(s[..n]);
      InsertKeepsOrder(Sort(s[..n]), s[n]);
      forall t ensures AtTime(Sort(s), t) == AtTime(s, t) {
        InsertIsStable(Sort(s[..n]), s[n], t);
      }
    }
  }

  lemma {:induction false} MemberIffAtItsTime(s: seq<Run>, r: Run)
    ensures r in s <==> r in AtTime(s, RunTime(r))
  {
    if s != [] {
      var n := |s| - 1;
      MemberIffAtItsTime(s[..n], r);
      assert s == s[..n] + [s[n]];
    }
  }

  lemma {:induction false} SortKeepsMembers(s: seq<Run>, r: Run)
    ensures r in Sort(s) <==> r in s
  {
    MemberIffAtItsTime(s, r);
    MemberIffAtItsTime(Sort(s), r);
    SortIsStable(s);
    assert AtTime(Sort(s), RunTime(r)) == AtTime(s, RunTime(r));
  }

  lemma {:induction false} LastTimesAgree(a: seq<Run>, b: seq<Run>)
    requires LatestFirst(a) && LatestFirst(b) && a != [] && b != []
    requires forall t :: AtTime(a, t) == AtTime(b, t)
    ensures a[|a| - 1] == b[|b| - 1]
  {
    var ta, tb := RunTime(a[|a| - 1]), RunTime(b[|b| - 1]);
    PresentIffAtTime(a, ta);
    PresentIffAtTime(b, ta);
    PresentIffAtTime(a, tb);
    PresentIffAtTime(b, tb);
    assert ta == tb;
    assert AtTime(a, ta)[|AtTime(a, ta)| - 1] == a[|a| - 1];
    assert AtTime(b, ta)[|AtTime(b, ta)| - 1] == b[|b| - 1];
  }

  /** Order and stability determine the result. */
  lemma {:induction false} StableSortIsUnique(a: seq<Run>, b: seq<Run>)
    requires LatestFirst(a) && LatestFirst(b)
    requires forall t :: AtTime(a, t) == AtTime(b, t)
    ensures a == b
  {
    if a == [] || b == [] {
      var c := if a == [] then b else a;
      if c != [] {
        PresentIffAtTime(a, RunTime(c[0]));
        PresentIffAtTime(b, RunTime(c[0]));
      }
    } else {
      LastTimesAgree(a, b);
      var m, n := |a| - 1, |b| - 1;
      forall t ensures AtTime(a[..m], t) == AtTime(b[..n], t) {
        var last := if RunTime(a[m]) == t then [a[m]] else [];
        assert AtTime(a, t) == AtTime(a[..m], t) + last && AtTime(b, t) == AtTime(b[..n], t) + last;
        assert AtTime(a[..m], t) == AtTime(a, t)[..|AtTime(a, t)| - |last|];
        assert AtTime(b[..n], t) == AtTime(b, t)[..|AtTime(b, t)| - |last|];
      }
      StableSortIsUnique(a[..m], b[..n]);
      assert a == a[..m] + [a[m]] && b == b[..n] + [b[n]];
    }
  }

  /** What is in order already is left as it is. */
  lemma SortedIsFixed(s: seq<Run>)
    ensures Sort(s) == s <==> LatestFirst(s)
  {
    SortIsStable(s);
    if LatestFirst(s) {
      StableSortIsUnique(Sort(s), s);
    }
  }

  // Taking before sorting ---------------------------------------------------------------

  /** No run after the first `k` is later than one of them. */
  ghost predicate FirstAreLatest(s: seq<Run>, k: nat)
    requires k <= |s|
  {
    forall i, j | 0 <= i < k <= j < |s| :: RunTime(s[i]) >= RunTime(s[j])
  }

  lemma {:induction false} TimesOfParts(p: seq<Run>, s: seq<Run>, i: nat)
    requires i < |s| && AtTime(p, RunTime(s[i])) == AtTime(s, RunTime(s[i]))
    ensures exists j | 0 <= j < |p| :: RunTime(p[j]) == RunTime(s[i])
  {
    PresentIffAtTime(s, RunTime(s[i]));
    PresentIffAtTime(p, RunTime(s[i]));
  }

  lemma {:induction false} SortedPartsConcat(a: seq<Run>, b: seq<Run>)
    requires forall i, j | 0 <= i < |a| && 0 <= j < |b| :: RunTime(a[i]) >= RunTime(b[j])
    ensures Sort(a + b) == Sort(a) + Sort(b)
  {
    var p, q := Sort(a), Sort(b);
    SortIsStable(a + b);
    SortIsStable(a);
    SortIsStable(b);
    forall t ensures AtTime(Sort(a + b), t) == AtTime(p + q, t) {
      AtTimeConcat(a, b, t);
      AtTimeConcat(p, q, t);
    }
    forall i, j | 0 <= i < |p| && 0 <= j < |q| ensures RunTime(p[i]) >= RunTime(q[j]) {
      TimesOfParts(a, p, i);
      TimesOfParts(b, q, j);
    }
    StableSortIsUnique(Sort(a + b), p + q);
  }

  lemma {:induction false} CancelPrefix(x: seq<Run>, y: seq<Run>, z: seq<Run>)
    requires x + y == x + z
    ensures y == z
  {
    assert y == (x + y)[|x|..] && z == (x + z)[|x|..];
  }

  /** If one part sorted is the head of all sorted, the tail is made of the other part. */
  lemma {:induction false} TailHasTheRest(a: seq<Run>, b: seq<Run>, q: seq<Run>, t: int)
    requires Sort(a + b) == Sort(a) + q
    ensures AtTime(q, t) == AtTime(b, t)
  {
    SortIsStable(a + b);
    SortIsStable(a);
    AtTimeConcat(a, b, t);
    AtTimeConcat(Sort(a), q, t);
    CancelPrefix(AtTime(a, t), AtTime(q, t), AtTime(b, t));
  }

  lemma {:induction false} HasPlaceAmongSorted(s: seq<Run>, i: nat) returns (x: nat)
    requires i < |s|
    ensures x < |Sort(s)| && RunTime(Sort(s)[x]) == RunTime(s[i])
  {
    SortIsStable(s);
    TimesOfParts(Sort(s), s, i);
    x :| 0 <= x < |Sort(s)| && RunTime(Sort(s)[x]) == RunTime(s[i]);
  }

  lemma {:induction false} HasPlaceInTail(a: seq<Run>, b: seq<Run>, q: seq<Run>, j: nat) returns (y: nat)
    requires Sort(a + b) == Sort(a) + q && j < |b|
    ensures y < |q| && RunTime(q[y]) == RunTime(b[j])
  {
    TailHasTheRest(a, b, q, RunTime(b[j]));
    TimesOfParts(q, b, j);
    y :| 0 <= y < |q| && RunTime(q[y]) == RunTime(b[j]);
  }

  lemma {:induction false} HeadIsLatest(a: seq<Run>, b: seq<Run>, q: seq<Run>, i: nat, j: nat)
    requires Sort(a + b) == Sort(a) + q && i < |a| && j < |b|
    ensures RunTime(a[i]) >= RunTime(b[j])
  {
    var x := HasPlaceAmongSorted(a, i);
    var y := HasPlaceInTail(a, b, q, j);
    SortIsStable(a + b);
    var p := Sort(a);
    assert (p + q)[x] == p[x] && (p + q)[|p| + y] == q[y];
  }

  /** Sorting the first `k` gives the `k` latest of all exactly when no later-listed run is
      later than one of the first `k`. */
  lemma {:induction false} TakeThenSortIsSortThenTakeIff(s: seq<Run>, k: nat)
    requires k <= |s|
    ensures Sort(s[..k]) == Sort(s)[..k] <==> FirstAreLatest(s, k)
  {
    var a, b := s[..k], s[k..];
    assert s == a + b && Sort(s) == Sort(s)[..k] + Sort(s)[k..];
    if FirstAreLatest(s, k) {
      SortedPartsConcat(a, b);
    }
    if Sort(a) == Sort(s)[..k] {
      forall i, j | 0 <= i < k <= j < |s| ensures RunTime(s[i]) >= RunTime(s[j]) {
        HeadIsLatest(a, b, Sort(s)[k..], i, j - k);
      }
    }
  }
}
