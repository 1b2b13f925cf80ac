/** The machine list's two groupings: recent runs and latest facts, one pass each. */
module RecentRuns {
  import opened Wrappers
  import opened StableSort

  const NIL: nat := 0

  /** A row of the runs query; a run may have lost its machine. */
  datatype RunRow = RunRow(id: nat, machine: Option<nat>, startedAt: Option<int>, finishedAt: Option<int>)

  function ToRun(row: RunRow): Run {
    Run(row.id, if row.machine.Some? then row.machine.value else NIL, row.startedAt, row.finishedAt)
  }

  predicate Owns(row: RunRow, m: nat) {
    row.machine == Some(m) && m != NIL
  }

  /** The runs of machine `m` among the first `n` rows, in row order. */
  function OwnUpTo(rows: seq<RunRow>, m: nat, n: nat): seq<Run>
    requires n <= |rows|
  {
    if n == 0 then [] else OwnUpTo(rows, m, n - 1) + if Owns(rows[n - 1], m) then [ToRun(rows[n - 1])] else []
  }

  function OwnRuns(rows: seq<RunRow>, m: nat): seq<Run> { OwnUpTo(rows, m, |rows|) }

  function Take(s: seq<Run>, k: nat): seq<Run> {
    if |s| <= k then s else s[..k]
  }

  lemma TakeGrows(own: seq<Run>, r: Run, k: nat)
    ensures Take(own + [r], k) == if |Take(own, k)| >= k then Take(own, k) else Take(own, k) + [r]
  {
  }

  /** The groups hold what the first `n` rows give each machine. */
  ghost predicate Grouped(rows: seq<RunRow>, n: nat, k: nat, groups: map<nat, seq<Run>>)
    requires n <= |rows|
  {
    forall m ::
      && (m in groups <==> OwnUpTo(rows, m, n) != [])
      && (m in groups ==> groups[m] == Take(OwnUpTo(rows, m, n), k))
  }

  /** The one pass over the rows: keep, for each machine, its first `perMachine` runs. */
  method GroupRuns(rows: seq<RunRow>, perMachine: nat) returns (out: map<nat, seq<Run>>)
    requires perMachine > 0
    ensures Grouped(rows, |rows|, perMachine, out)
  {
    out := map[];
    for i := 0 to |rows|
      invariant Grouped(rows, i, perMachine, out)
    {
      var row := rows[i];
      if row.machine.None? || row.machine.value == NIL {
        continue;
      }
      var m := row.machine.value;
      TakeGrows(OwnUpTo(rows, m, i), ToRun(row), perMachine);
      var runs := if m in out then out[m] else [];
      if |runs| >= perMachine {
        continue;
      }
      out := out[m := runs + [ToRun(row)]];
    }
  }

  /** Sort each machine's list; none is longer than `perMachine`, so none is cut again. */
  method SortGroups(groups: map<nat, seq<Run>>, perMachine: nat) returns (out: map<nat, seq<Run>>)
    requires forall m | m in groups :: |groups[m]| <= perMachine
    ensures out == map m | m in groups :: Sort(groups[m])
  {
    out := groups;
    var pending := groups.Keys;
    while pending != {}
      invariant pending <= groups.Keys == out.Keys
      invariant forall m | m in groups :: out[m] == if m in pending then groups[m] else Sort(groups[m])
      decreases |pending|
    {
      var m :| m in pending;
      pending := pending - {m};
      var runs := Sort(out[m]);
      out := out[m := runs];
      if |runs| > perMachine {
        assert false;  // the second cut never happens
      }
    }
  }

  /** How many of the first `n` rows belong to `m`. */
  function RowsOf(rows: seq<RunRow>, m: nat, n: nat): nat
    requires n <= |rows|
  {
    if n == 0 then 0 else RowsOf(rows, m, n - 1) + if rows[n - 1].machine == Some(m) then 1 else 0
  }

  lemma {:induction false} OwnCount(rows: seq<RunRow>, m: nat, n: nat)
    requires n <= |rows|
    ensures |OwnUpTo(rows, m, n)| == if m == NIL then 0 else RowsOf(rows, m, n)
  {
    if n > 0 {
      OwnCount(rows, m, n - 1);
    }
  }

  lemma {:induction false} RowIsListed(rows: seq<RunRow>, m: nat, n: nat, k: nat)
    requires k < n <= |rows| && m != NIL && rows[k].machine == Some(m)
    ensures var i := RowsOf(rows, m, k);
            && i < |OwnUpTo(rows, m, n)|
            && OwnUpTo(rows, m, n)[i] == Run(rows[k].id, m, rows[k].startedAt, rows[k].finishedAt)
  {
    OwnCount(rows, m, n - 1);
    if k < n - 1 {
      RowIsListed(rows, m, n - 1, k);
    }
  }

  lemma {:induction false} ListedIsRow(rows: seq<RunRow>, m: nat, n: nat, i: nat) returns (k: nat)
    requires n <= |rows| && i < |OwnUpTo(rows, m, n)|
    ensures k < n && m != NIL && rows[k].machine == Some(m) && RowsOf(rows, m, k) == i
    ensures OwnUpTo(rows, m, n)[i] == Run(rows[k].id, m, rows[k].startedAt, rows[k].finishedAt)
  {
    OwnCount(rows, m, n - 1);
    if i < |OwnUpTo(rows, m, n - 1)| {
      k := ListedIsRow(rows, m, n - 1, i);
    } else {
      k := n - 1;
    }
  }

  /** `r` is the run of a row of `m` with fewer than `k` rows of `m` before it. */
  ghost predicate AmongFirst(rows: seq<RunRow>, m: nat, k: nat, r: Run) {
    && r.machine == m
    && exists j | 0 <= j < |rows| :: rows[j] == RunRow(r.id, Some(m), r.startedAt, r.finishedAt) && RowsOf(rows, m, j) < k
  }

  lemma {:induction false} TakenAreTheFirst(rows: seq<RunRow>, m: nat, k: nat, r: Run)
    requires m != NIL
    ensures r in Take(OwnRuns(rows, m), k) <==> AmongFirst(rows, m, k, r)
  {
    var own := OwnRuns(rows, m);
    if r in Take(own, k) {
      var i :| 0 <= i < |Take(own, k)| && Take(own, k)[i] == r;
      var j := ListedIsRow(rows, m, |rows|, i);
      assert rows[j] == RunRow(r.id, Some(m), r.startedAt, r.finishedAt);
    }
    if AmongFirst(rows, m, k, r) {
      var j :| 0 <= j < |rows| && rows[j] == RunRow(r.id, Some(m), r.startedAt, r.finishedAt) && RowsOf(rows, m, j) < k;
      RowIsListed(rows, m, |rows|, j);
      assert Take(own, k)[RowsOf(rows, m, j)] == r;
    }
  }

  /** The list is made of the runs of the machine's first `k` rows, as many, latest first. */
  ghost predicate ListsTheFirst(rows: seq<RunRow>, m: nat, k: nat, runs: seq<Run>) {
    && (forall r :: r in runs <==> AmongFirst(rows, m, k, r))
    && |runs| == (if RowsOf(rows, m, |rows|) < k then RowsOf(rows, m, |rows|) else k)
    && (forall i, j | 0 <= i < j < |runs| && runs[i].startedAt.Some? && runs[j].startedAt.Some? ::
          runs[i].startedAt.value >= runs[j].startedAt.value)
    && (forall i, j | 0 <= i < j < |runs| && runs[i].startedAt.None? && runs[j].startedAt.Some? && runs[i].finishedAt.Some? ::
          runs[i].finishedAt.value >= runs[j].startedAt.value)
    && (forall i, j | 0 <= i < j < |runs| && runs[i].startedAt.Some? && runs[j].startedAt.None? && runs[j].finishedAt.Some? ::
          runs[i].startedAt.value >= runs[j].finishedAt.value)
  }

  lemma {:induction false} SortedListsTheFirst(rows: seq<RunRow>, m: nat, k: nat)
    requires m != NIL
    ensures ListsTheFirst(rows, m, k, Sort(Take(OwnRuns(rows, m), k)))
  {
    var own := Take(OwnRuns(rows, m), k);
    OwnCount(rows, m, |rows|);
    SortIsStable(own);
    forall r ensures r in Sort(own) <==> AmongFirst(rows, m, k, r) {
      SortKeepsMembers(own, r);
      TakenAreTheFirst(rows, m, k, r);
    }
  }

  /** Group the rows in one pass, then sort each machine's list: each machine with rows gets
      the runs of its first rows and no other. */
  method FetchRecentRuns(rows: seq<RunRow>, machines: seq<nat>, perMachine: int) returns (out: map<nat, seq<Run>>)
    ensures machines == [] || perMachine <= 0 ==> out == map[]
    ensures machines != [] && perMachine > 0 ==>
              forall m :: m in out <==> m != NIL && exists i | 0 <= i < |rows| :: rows[i].machine == Some(m)
    ensures forall m | m in out :: perMachine > 0 && out[m] == Sort(Take(OwnRuns(rows, m), perMachine))
    ensures forall m | m in out :: ListsTheFirst(rows, m, perMachine, out[m])
    ensures forall m, r | m in out && r in out[m] :: r.machine == m && RunRow(r.id, Some(m), r.startedAt, r.finishedAt) in rows
  {
    if machines == [] || perMachine <= 0 {
      return map[];
    }
    var groups := GroupRuns(rows, perMachine);
    out := SortGroups(groups, perMachine);
    forall m ensures m in out <==> m != NIL && exists i | 0 <= i < |rows| :: rows[i].machine == Some(m) {
      HasRowsIff(rows, m, |rows|);
    }
    forall m | m in out ensures ListsTheFirst(rows, m, perMachine, out[m]) {
      SortedListsTheFirst(rows, m, perMachine);
    }
  }

  lemma {:induction false} HasRowsIff(rows: seq<RunRow>, m: nat, n: nat)
    requires n <= |rows|
    ensures OwnUpTo(rows, m, n) != [] <==> m != NIL && exists i | 0 <= i < n :: rows[i].machine == Some(m)
  {
    if n > 0 {
      HasRowsIff(rows, m, n - 1);
    }
  }

  // The order the query asks for ----------------------------------------------------------

  /** Latest start first, rows without a start last. */
  ghost predicate QueryOrder(rows: seq<RunRow>) {
    forall i, j | 0 <= i < j < |rows| ::
      rows[j].startedAt.Some? ==> rows[i].startedAt.Some? && rows[i].startedAt.value >= rows[j].startedAt.value
  }

  predicate AllStarted(s: seq<Run>) {
    forall r | r in s :: r.startedAt.Some?
  }

  lemma {:induction false} OwnRunHasRow(rows: seq<RunRow>, m: nat, n: nat, i: nat) returns (k: nat)
    requires n <= |rows| && i < |OwnUpTo(rows, m, n)|
    ensures k < n && OwnUpTo(rows, m, n)[i] == ToRun(rows[k])
  {
    if i < |OwnUpTo(rows, m, n - 1)| {
      k := OwnRunHasRow(rows, m, n - 1, i);
    } else {
      k := n - 1;
    }
  }

  /** Each machine's runs come in the order of the rows they were read from. */
  lemma {:induction false} OwnRunsFollowRows(rows: seq<RunRow>, m: nat, n: nat, i: nat, j: nat)
    requires n <= |rows| && QueryOrder(rows) && i < j < |OwnUpTo(rows, m, n)|
    requires OwnUpTo(rows, m, n)[j].startedAt.Some?
    ensures var own := OwnUpTo(rows, m, n);
            own[i].startedAt.Some? && own[i].startedAt.value >= own[j].startedAt.value
  {
    var before := OwnUpTo(rows, m, n - 1);
    if j < |before| {
      OwnRunsFollowRows(rows, m, n - 1, i, j);
    } else {
      var k := OwnRunHasRow(rows, m, n - 1, i);
      assert rows[k].startedAt.Some? && rows[k].startedAt.value >= rows[n - 1].startedAt.value;
    }
  }

  lemma {:induction false} StartedRunsAreOrdered(rows: seq<RunRow>, m: nat, k: nat)
    requires QueryOrder(rows) && AllStarted(Take(OwnRuns(rows, m), k))
    ensures LatestFirst(Take(OwnRuns(rows, m), k))
  {
    var runs := Take(OwnRuns(rows, m), k);
    forall i, j | 0 <= i < j < |runs| ensures RunTime(runs[i]) >= RunTime(runs[j]) {
      assert runs[j] in runs;
      OwnRunsFollowRows(rows, m, |rows|, i, j);
    }
  }

  /** On rows in query order the sort changes nothing as long as the kept runs have started. */
  lemma SortIsIdentityWhenStarted(rows: seq<RunRow>, m: nat, k: nat)
    requires QueryOrder(rows) && AllStarted(Take(OwnRuns(rows, m), k))
    ensures Sort(Take(OwnRuns(rows, m), k)) == Take(OwnRuns(rows, m), k)
  {
    StartedRunsAreOrdered(rows, m, k);
    SortedIsFixed(Take(OwnRuns(rows, m), k));
  }

  /** What is listed are the `k` latest runs of the machine exactly when none it leaves out
      is later than one it lists; a run with an end but no start can break that. */
  lemma ListedAreLatestIff(rows: seq<RunRow>, m: nat, k: nat)
    ensures var own := OwnRuns(rows, m);
            Sort(Take(own, k)) == Take(Sort(own), k) <==> (|own| <= k || FirstAreLatest(own, k))
  {
    var own := OwnRuns(rows, m);
    if |own| > k {
      TakeThenSortIsSortThenTakeIff(own, k);
    }
  }

  /** Among rows in query order that is so whenever all of the machine's runs have started. */
  lemma StartedAreLatest(rows: seq<RunRow>, m: nat, k: nat)
    requires QueryOrder(rows) && AllStarted(OwnRuns(rows, m))
    ensures Sort(Take(OwnRuns(rows, m), k)) == Take(Sort(OwnRuns(rows, m)), k)
  {
    var own := OwnRuns(rows, m);
    StartedRunsAreOrdered(rows, m, |own|);
    ListedAreLatestIff(rows, m, k);
  }

  /** And it fails on two rows in query order: the run left out ended after the one listed began. */
  lemma UnstartedRunCanBeMissed(m: nat, t: int)
    requires m != NIL
    ensures var rows := [RunRow(1, Some(m), Some(t), None), RunRow(2, Some(m), None, Some(t + 1))];
            QueryOrder(rows) && Sort(Take(OwnRuns(rows, m), 1)) != Take(Sort(OwnRuns(rows, m)), 1)
  {
    var rows := [RunRow(1, Some(m), Some(t), None), RunRow(2, Some(m), None, Some(t + 1))];
    var own := OwnRuns(rows, m);
    assert OwnUpTo(rows, m, 1) == [ToRun(rows[0])];
    assert own == [ToRun(rows[0]), ToRun(rows[1])];
    assert RunTime(own[0]) < RunTime(own[1]);
    ListedAreLatestIff(rows, m, 1);
  }

  // Latest facts ------------------------------------------------------------------------

  datatype FactRow = FactRow(id: nat, machine: nat, createdAt: int)

  ghost predicate NewestFirst(rows: seq<FactRow>) {
    forall i, j | 0 <= i < j < |rows| :: rows[i].createdAt >= rows[j].createdAt
  }

  /** `f` is the first row of machine `m`. */
  ghost predicate FirstOf(rows: seq<FactRow>, m: nat, f: FactRow) {
    exists i | 0 <= i < |rows| :: rows[i] == f && rows[i].machine == m && forall j | 0 <= j < i :: rows[j].machine != m
  }

  /** Keep the first fact met for each machine; in query order that is its latest. */
  method FetchLatestFacts(rows: seq<FactRow>, machines: seq<nat>) returns (out: map<nat, FactRow>)
    ensures machines == [] ==> out == map[]
    ensures machines != [] ==> forall m :: m in out <==> exists i | 0 <= i < |rows| :: rows[i].machine == m
    ensures forall m | m in out :: FirstOf(rows, m, out[m])
    ensures NewestFirst(rows) ==>
              forall m, i | m in out && 0 <= i < |rows| && rows[i].machine == m :: out[m].createdAt >= rows[i].createdAt
  {
    out := map[];
    if machines == [] {
      return;
    }
    for i := 0 to |rows|
      invariant forall m :: m in out <==> exists j | 0 <= j < i :: rows[j].machine == m
      invariant forall m | m in out :: FirstOf(rows, m, out[m])
    {
      if rows[i].machine in out {
        continue;
      }
      assert FirstOf(rows, rows[i].machine, rows[i]);
      out := out[rows[i].machine := rows[i]];
    }
  }
}
