/** Safety of the run protocol under every interleaving of the handlers' sub-steps. */
module RunSafety {
  import opened RunProtocol

  // Ownership -------------------------------------------------------------------------

  predicate Owned(runs: map<Id, Run>, m: Id, r: Id) {
    r in runs && runs[r].machine == m && r != NIL && m != NIL
  }

  ghost predicate OwnedNotices(runs: map<Id, Run>, ns: set<Notice>) {
    forall n | n in ns :: Owned(runs, n.machine, n.run)
  }

  ghost predicate OwnedPcs(c: Config) {
    && (c.enrol.EnrolQuerying? || c.enrol.EnrolCreating? ==> c.enrol.machine != NIL)
    && (c.facts.FactsQuerying? ==> c.facts.machine != NIL)
    && (c.enrol.EnrolAdopting? || c.enrol.EnrolCaching? || c.enrol.EnrolAnnouncing? ==>
          Owned(c.shared.runs, c.enrol.machine, c.enrol.run))
    && (c.facts.FactsAdopting? || c.facts.FactsCompleting? || c.facts.FactsClearing? || c.facts.FactsAnnouncing? ==>
          Owned(c.shared.runs, c.facts.machine, c.facts.run))
  }

  predicate OwnedRequest(runs: map<Id, Run>, pc: ApiPc) {
    match pc
    case FinishSaving(r, row) => Owned(runs, row.machine, r)
    case _ => Owned(runs, pc.notice.machine, pc.notice.run)
  }

  /** Everything that pairs a machine with a run pairs it with a run of its own. */
  ghost predicate Ownership(c: Config) {
    && (forall m | m in c.shared.active :: Owned(c.shared.runs, m, c.shared.active[m]))
    && OwnedNotices(c.shared.runs, c.shared.started)
    && OwnedNotices(c.shared.runs, c.shared.finished)
    && (forall q | q in c.api :: OwnedRequest(c.shared.runs, c.api[q]))
    && OwnedPcs(c)
    && NIL !in c.shared.runs
    && forall r | r in c.shared.runs :: c.shared.runs[r].machine != NIL
  }

  predicate IsEnrolStep(s: Step) {
    s.EnrolReceive? || s.EnrolQuery? || s.EnrolAdopt? || s.EnrolCreate? || s.EnrolCache? || s.EnrolAnnounce?
  }

  predicate IsFactsStep(s: Step) {
    s.FactsReceive? || s.FactsQuery? || s.FactsAdopt? || s.FactsComplete? || s.FactsClear? || s.FactsAnnounce?
  }

  /** Rows are added and rewritten but never dropped or moved to another machine. */
  ghost predicate RowsKept(runs: map<Id, Run>, runs': map<Id, Run>) {
    forall r | r in runs :: r in runs' && runs'[r].machine == runs[r].machine
  }

  lemma OwnershipAsRowsGrow(c: Config, runs: map<Id, Run>)
    requires Ownership(c) && RowsKept(c.shared.runs, runs)
    requires NIL !in runs && forall r | r in runs :: runs[r].machine != NIL
    ensures Ownership(c.(shared := c.shared.(runs := runs)))
  {
  }

  lemma OwnershipOfShared(c: Config, sh: Shared)
    requires Ownership(c) && sh.runs == c.shared.runs
    requires forall m | m in sh.active :: Owned(sh.runs, m, sh.active[m])
    requires OwnedNotices(sh.runs, sh.started) && OwnedNotices(sh.runs, sh.finished)
    ensures Ownership(c.(shared := sh))
  {
  }

  lemma EnrolOwnership(c: Config, s: Step)
    requires Ownership(c) && StepEnabled(c, s) && IsEnrolStep(s)
    ensures Ownership(StepTo(c, s))
  {
    var c' := StepTo(c, s);
    if s.EnrolCreate? && s.ok {
      OwnershipAsRowsGrow(c, c'.shared.runs);
    } else {
      OwnershipOfShared(c, c'.shared);
    }
  }

  lemma FactsOwnership(c: Config, s: Step)
    requires Ownership(c) && StepEnabled(c, s) && IsFactsStep(s)
    ensures Ownership(StepTo(c, s))
  {
    var c' := StepTo(c, s);
    if s.FactsComplete? {
      OwnershipAsRowsGrow(c, c'.shared.runs);
    } else {
      OwnershipOfShared(c, c'.shared);
    }
  }

  lemma DeliveryOwnership(c: Config, s: Step)
    requires Ownership(c) && StepEnabled(c, s) && (s.DeliverStarted? || s.DeliverFinished?)
    ensures Ownership(StepTo(c, s))
  {
    OwnershipOfShared(c, StepTo(c, s).shared);
  }

  lemma ApiStartOwnership(c: Config, s: Step)
    requires Ownership(c) && StepEnabled(c, s) && (s.ApiStart? || s.ApiStartAnnounce?)
    ensures Ownership(StepTo(c, s))
  {
    var c' := StepTo(c, s);
    if s.ApiStart? {
      OwnershipAsRowsGrow(c, c'.shared.runs);
    } else {
      OwnershipOfShared(c, c'.shared);
    }
  }

  lemma ApiFinishOwnership(c: Config, s: Step)
    requires Ownership(c) && StepEnabled(c, s) && (s.ApiFinishRead? || s.ApiFinishSave? || s.ApiFinishAnnounce?)
    ensures Ownership(StepTo(c, s))
  {
    var c' := StepTo(c, s);
    if s.ApiFinishSave? {
      OwnershipAsRowsGrow(c, c'.shared.runs);
    } else {
      OwnershipOfShared(c, c'.shared);
    }
  }

  lemma {:induction false} OwnershipStep(c: Config, s: Step)
    requires Ownership(c) && StepEnabled(c, s)
    ensures Ownership(StepTo(c, s))
  {
    if IsEnrolStep(s) {
      EnrolOwnership(c, s);
    } else if IsFactsStep(s) {
      FactsOwnership(c, s);
    } else if s.DeliverStarted? || s.DeliverFinished? {
      DeliveryOwnership(c, s);
    } else if s.ApiStart? || s.ApiStartAnnounce? {
      ApiStartOwnership(c, s);
    } else {
      ApiFinishOwnership(c, s);
    }
  }

  /** Ownership in every configuration reachable from an owned one, the initial one among
      them: all interleavings, any redelivery, any number of API starts and finishes with
      any status. */
  lemma {:induction false} OwnershipAlways(cs: seq<Config>, ss: seq<Step>, i: nat)
    requires Execution(cs, ss) && i < |cs| && (cs[0] == INITIAL || Ownership(cs[0]))
    ensures Ownership(cs[i])
  {
    if i > 0 {
      OwnershipAlways(cs, ss, i - 1);
      OwnershipStep(cs[i - 1], ss[i - 1]);
    }
  }

  /** A fact about machine `m` never completes a run of another machine: every row other
      than those of the worker's machine survives the completing step. */
  lemma FactsCompleteOwnRunsOnly(cs: seq<Config>, ss: seq<Step>, i: nat, r: Id)
    requires Execution(cs, ss) && cs[0] == INITIAL
    requires i < |ss| && ss[i].FactsComplete? && r in cs[i].shared.runs
    requires r !in cs[i + 1].shared.runs || cs[i + 1].shared.runs[r] != cs[i].shared.runs[r]
    ensures cs[i].shared.runs[r].machine == cs[i].facts.machine
    ensures r in cs[i + 1].shared.runs && cs[i + 1].shared.runs[r] == cs[i].shared.runs[r].(status := SUCCESS)
  {
    OwnershipAlways(cs, ss, i);
  }

  // No way back into running -----------------------------------------------------------

  /** The API never finishes a run with the status "running". */
  predicate ProperStatus(s: Step) {
    s.ApiFinishRead? ==> s.status != RUNNING
  }

  ghost predicate SavesStop(c: Config) {
    forall q | q in c.api && c.api[q].FinishSaving? :: c.api[q].row.status != RUNNING
  }

  lemma {:induction false} SaveStops(c: Config, s: Step, q: nat)
    requires StepEnabled(c, s) && ProperStatus(s) && SavesStop(c)
    requires q in StepTo(c, s).api && StepTo(c, s).api[q].FinishSaving?
    ensures StepTo(c, s).api[q].row.status != RUNNING
  {
    if !(s.ApiFinishRead? && s.request == q) {
      assert q in c.api && c.api[q] == StepTo(c, s).api[q];
    }
  }

  lemma {:induction false} SavesStopStep(c: Config, s: Step, c': Config)
    requires StepEnabled(c, s) && ProperStatus(s) && SavesStop(c) && c' == StepTo(c, s)
    ensures SavesStop(c')
  {
    forall q | q in c'.api && c'.api[q].FinishSaving? ensures c'.api[q].row.status != RUNNING {
      SaveStops(c, s, q);
    }
  }

  lemma {:induction false} StoppedStep(c: Config, s: Step, c': Config, r: Id)
    requires StepEnabled(c, s) && SavesStop(c) && c' == StepTo(c, s)
    requires r in c.shared.runs && !IsRunning(c.shared.runs, r)
    ensures r in c'.shared.runs && !IsRunning(c'.shared.runs, r)
  {
    match s
    case EnrolCreate(id, _, ok) =>
      assert id != r;
    case ApiStart(_, _, id, _) =>
      assert id != r;
    case ApiFinishSave(q, ok) =>
      assert c.api[q].row.status != RUNNING;
    case FactsComplete(ok) =>
      assert SUCCESS != RUNNING;
    case _ =>
      assert c'.shared.runs == c.shared.runs;
  }

  lemma {:induction false} SavesStopAlways(cs: seq<Config>, ss: seq<Step>, i: nat)
    requires Execution(cs, ss) && cs[0] == INITIAL && i < |cs|
    requires forall k | 0 <= k < |ss| :: ProperStatus(ss[k])
    ensures SavesStop(cs[i])
  {
    if i > 0 {
      SavesStopAlways(cs, ss, i - 1);
      SavesStopStep(cs[i - 1], ss[i - 1], cs[i]);
    }
  }

  /** A run that has stopped running never runs again, whatever is redelivered. */
  lemma {:induction false} StoppedForever(cs: seq<Config>, ss: seq<Step>, i: nat, j: nat, r: Id)
    requires Execution(cs, ss) && cs[0] == INITIAL && i <= j < |cs|
    requires forall k | 0 <= k < |ss| :: ProperStatus(ss[k])
    requires r in cs[i].shared.runs && !IsRunning(cs[i].shared.runs, r)
    ensures r in cs[j].shared.runs && !IsRunning(cs[j].shared.runs, r)
    decreases j
  {
    if i < j {
      StoppedForever(cs, ss, i, j - 1, r);
      SavesStopAlways(cs, ss, j - 1);
      StoppedStep(cs[j - 1], ss[j - 1], cs[j], r);
    }
  }

  // Conservation -----------------------------------------------------------------------

  function RunningSet(runs: map<Id, Run>, m: Id): set<Id> {
    set r | r in runs && RunningOf(runs, m, r)
  }

  /** The times a run of `m` came to run are the times one stopped and the runs still running. */
  ghost predicate Balanced(c: Config, m: Id) {
    c.created[m] + c.reentered[m] == c.exited[m] + |RunningSet(c.shared.runs, m)|
  }

  lemma {:induction false} CreateBalances(c: Config, r: Id, k: Id, now: int, m: Id)
    requires Balanced(c, m) && r !in c.shared.runs
    ensures Balanced(CreateRow(c, r, k, now), m)
  {
    var before, after := RunningSet(c.shared.runs, m), RunningSet(c.shared.runs[r := Run(k, RUNNING, now)], m);
    if k == m {
      assert after == before + {r};
    } else {
      assert after == before;
    }
  }

  lemma {:induction false} RunningAfterWrite(runs: map<Id, Run>, r: Id, row: Run, m: Id)
    requires r in runs && runs[r].machine == row.machine
    ensures var before, after := RunningSet(runs, m), RunningSet(runs[r := row], m);
            && (r in before <==> IsRunning(runs, r) && row.machine == m)
            && after == if row.machine != m then before else if row.status == RUNNING then before + {r} else before - {r}
  {
  }

  /** How many runs of `m` start and stop running when row `r` is rewritten. */
  lemma {:induction false} RunningCount(runs: map<Id, Run>, r: Id, row: Run, m: Id)
    requires r in runs && runs[r].machine == row.machine
    ensures var ran, runs' := IsRunning(runs, r), row.status == RUNNING;
            |RunningSet(runs[r := row], m)| ==
            |RunningSet(runs, m)| + (if row.machine == m && !ran && runs' then 1 else 0) - (if row.machine == m && ran && !runs' then 1 else 0)
  {
    RunningAfterWrite(runs, r, row, m);
    var before := RunningSet(runs, m);
    assert r in before ==> |before - {r}| == |before| - 1 && before + {r} == before;
    assert r !in before ==> |before + {r}| == |before| + 1 && before - {r} == before;
  }

  lemma {:induction false} WriteBalances(c: Config, r: Id, row: Run, m: Id)
    requires Balanced(c, m) && Owned(c.shared.runs, row.machine, r)
    ensures Balanced(WriteRow(c, r, row), m)
  {
    RunningCount(c.shared.runs, r, row, m);
    var ran, runs := IsRunning(c.shared.runs, r), row.status == RUNNING;
    var c' := WriteRow(c, r, row);
    assert c'.exited[m] == c.exited[m] + if row.machine == m && ran && !runs then 1 else 0;
    assert c'.reentered[m] == c.reentered[m] + if row.machine == m && !ran && runs then 1 else 0;
  }

  lemma {:induction false} BalanceStep(c: Config, s: Step, c': Config, m: Id)
    requires Ownership(c) && StepEnabled(c, s) && c' == StepTo(c, s) && Balanced(c, m)
    ensures Balanced(c', m)
  {
    match s
    case EnrolCreate(r, now, ok) =>
      CreateBalances(c, r, c.enrol.machine, now, m);
    case ApiStart(_, k, r, now) =>
      CreateBalances(c, r, k, now, m);
    case FactsComplete(ok) =>
      var r := c.facts.run;
      WriteBalances(c, r, c.shared.runs[r].(status := SUCCESS), m);
    case ApiFinishSave(q, ok) =>
      WriteBalances(c, c.api[q].id, c.api[q].row, m);
    case _ =>
  }

  lemma {:induction false} InitiallyBalanced(m: Id)
    ensures Balanced(INITIAL, m)
  {
    assert RunningSet(INITIAL.shared.runs, m) == {};
  }

  /** Conservation over all interleavings, whoever creates runs and with whatever status the
      API finishes them. */
  lemma {:induction false} Conservation(cs: seq<Config>, ss: seq<Step>, i: nat, m: Id)
    requires Execution(cs, ss) && cs[0] == INITIAL && i < |cs|
    ensures Balanced(cs[i], m)
  {
    if i > 0 {
      Conservation(cs, ss, i - 1, m);
      OwnershipAlways(cs, ss, i - 1);
      BalanceStep(cs[i - 1], ss[i - 1], cs[i], m);
    } else {
      InitiallyBalanced(m);
    }
  }

  /** Unless the API finishes a run with the status "running", none runs again. */
  lemma {:induction false} NoneReenters(cs: seq<Config>, ss: seq<Step>, i: nat)
    requires Execution(cs, ss) && cs[0] == INITIAL && i < |cs|
    requires forall k | 0 <= k < |ss| :: ProperStatus(ss[k])
    ensures cs[i].reentered == multiset{}
  {
    if i > 0 {
      NoneReenters(cs, ss, i - 1);
      SavesStopAlways(cs, ss, i - 1);
      assert cs[i] == StepTo(cs[i - 1], ss[i - 1]);
    }
  }

  // At most one ------------------------------------------------------------------------

  ghost predicate AtMostOneRunning(runs: map<Id, Run>) {
    forall r, t | IsRunning(runs, r) && IsRunning(runs, t) && runs[r].machine == runs[t].machine :: r == t
  }

  /** No run of `m` but perhaps `r` is running. */
  ghost predicate NoOther(runs: map<Id, Run>, m: Id, r: Id) {
    forall t | RunningOf(runs, m, t) :: t == r
  }

  datatype Write = NoWrite | Write(id: Id, row: Run)

  /** The row a step writes, if any. */
  function Written(c: Config, s: Step): Write
    requires StepEnabled(c, s)
  {
    match s
    case EnrolCreate(r, now, ok) => if ok then Write(r, Run(c.enrol.machine, RUNNING, now)) else NoWrite
    case FactsComplete(ok) =>
      if ok && c.facts.run in c.shared.runs then Write(c.facts.run, c.shared.runs[c.facts.run].(status := SUCCESS)) else NoWrite
    case ApiStart(_, m, r, now) => Write(r, Run(m, RUNNING, now))
    case ApiFinishSave(q, ok) => if ok then Write(c.api[q].id, c.api[q].row) else NoWrite
    case _ => NoWrite
  }

  lemma {:induction false} RunsAfter(c: Config, s: Step, c': Config)
    requires StepEnabled(c, s) && c' == StepTo(c, s)
    ensures match Written(c, s)
            case NoWrite => c'.shared.runs == c.shared.runs
            case Write(r, row) => c'.shared.runs == c.shared.runs[r := row]
  {
  }

  /** If the step sets a run running, no other run of its machine is running: the run of a
      creation by either side, or one the API finishes with the status "running". */
  ghost predicate EntersAlone(c: Config, s: Step)
    requires StepEnabled(c, s)
  {
    match Written(c, s)
    case NoWrite => true
    case Write(r, row) => row.status == RUNNING ==> NoOther(c.shared.runs, row.machine, r)
  }

  lemma {:induction false} WriteKeepsAtMostOne(runs: map<Id, Run>, r: Id, row: Run)
    requires AtMostOneRunning(runs) && (row.status == RUNNING ==> NoOther(runs, row.machine, r))
    ensures AtMostOneRunning(runs[r := row])
  {
    var runs' := runs[r := row];
    forall a, b | IsRunning(runs', a) && IsRunning(runs', b) && runs'[a].machine == runs'[b].machine ensures a == b {
      if a == r && b != r {
        assert RunningOf(runs, row.machine, b);
      } else if a != r && b == r {
        assert RunningOf(runs, row.machine, a);
      } else if a != r {
        assert IsRunning(runs, a) && IsRunning(runs, b);
      }
    }
  }

  lemma {:induction false} WriteKeepsAtMostOneIff(runs: map<Id, Run>, r: Id, row: Run)
    requires AtMostOneRunning(runs)
    ensures AtMostOneRunning(runs[r := row]) <==> (row.status == RUNNING ==> NoOther(runs, row.machine, r))
  {
    var runs' := runs[r := row];
    if row.status == RUNNING && AtMostOneRunning(runs') {
      forall t | RunningOf(runs, row.machine, t) ensures t == r {
        assert IsRunning(runs', t) && IsRunning(runs', r);
      }
      assert NoOther(runs, row.machine, r);
    }
    if row.status == RUNNING ==> NoOther(runs, row.machine, r) {
      WriteKeepsAtMostOne(runs, r, row);
    }
  }

  ghost predicate AtMostOneUpTo(cs: seq<Config>, n: nat)
    requires n < |cs|
  {
    forall j | 0 <= j <= n :: AtMostOneRunning(cs[j].shared.runs)
  }

  ghost predicate EntriesAreAlone(cs: seq<Config>, ss: seq<Step>, n: nat)
    requires Execution(cs, ss) && n <= |ss|
  {
    forall i | 0 <= i < n :: EntersAlone(cs[i], ss[i])
  }

  lemma {:induction false} AtMostOneStepIff(c: Config, s: Step, c': Config)
    requires StepEnabled(c, s) && c' == StepTo(c, s) && AtMostOneRunning(c.shared.runs)
    ensures AtMostOneRunning(c'.shared.runs) <==> EntersAlone(c, s)
  {
    RunsAfter(c, s, c');
    match Written(c, s)
    case NoWrite =>
    case Write(r, row) => WriteKeepsAtMostOneIff(c.shared.runs, r, row);
  }

  /** Exactly when no machine ever has two runs running: over all interleavings, with any API
      requests, if and only if every step that sets a run running finds no other of its
      machine running. */
  lemma {:induction false} AtMostOneIffEntriesAreAlone(cs: seq<Config>, ss: seq<Step>, n: nat)
    requires Execution(cs, ss) && cs[0] == INITIAL && n <= |ss|
    ensures AtMostOneUpTo(cs, n) <==> EntriesAreAlone(cs, ss, n)
  {
    if n > 0 {
      AtMostOneIffEntriesAreAlone(cs, ss, n - 1);
      assert AtMostOneUpTo(cs, n) <==> AtMostOneUpTo(cs, n - 1) && AtMostOneRunning(cs[n].shared.runs);
      assert EntriesAreAlone(cs, ss, n) <==> EntriesAreAlone(cs, ss, n - 1) && EntersAlone(cs[n - 1], ss[n - 1]);
      if AtMostOneUpTo(cs, n - 1) {
        AtMostOneStepIff(cs[n - 1], ss[n - 1], cs[n]);
      }
    }
  }

  /** An enrolment that found no running run still finds none when it creates its own. */
  ghost predicate NoneWhileCreating(c: Config) {
    c.enrol.EnrolCreating? ==> forall r :: !RunningOf(c.shared.runs, c.enrol.machine, r)
  }

  predicate CreatingFor(c: Config, m: Id) {
    c.enrol.EnrolCreating? && c.enrol.machine == m
  }

  /** When the API may set a run running: no other run of its machine is running, and the
      orchestrator is not about to create one. */
  ghost predicate ApiTakesCare(c: Config, s: Step)
    requires StepEnabled(c, s)
  {
    (s.ApiStart? || s.ApiFinishSave?) && Written(c, s).Write? && Written(c, s).row.status == RUNNING ==>
      EntersAlone(c, s) && !CreatingFor(c, Written(c, s).row.machine)
  }

  /** While an enrolment is about to create a run, nobody else sets a run of its machine running. */
  lemma {:induction false} NoNewRunning(c: Config, s: Step, c': Config, m: Id, r: Id)
    requires StepEnabled(c, s) && c' == StepTo(c, s) && !s.EnrolCreate?
    requires ApiTakesCare(c, s) && CreatingFor(c, m) && NoneWhileCreating(c)
    ensures !RunningOf(c'.shared.runs, m, r)
  {
    RunsAfter(c, s, c');
    assert !RunningOf(c.shared.runs, m, r);
  }

  lemma {:induction false} OnlyQueryStartsCreating(c: Config, s: Step)
    requires StepEnabled(c, s) && StepTo(c, s).enrol.EnrolCreating?
    ensures StepTo(c, s).enrol == c.enrol || (s == EnrolQuery(Missing) && StepTo(c, s).enrol.machine == c.enrol.machine)
  {
  }

  lemma {:induction false} NoneWhileCreatingStep(c: Config, s: Step, c': Config)
    requires StepEnabled(c, s) && c' == StepTo(c, s) && ApiTakesCare(c, s) && NoneWhileCreating(c)
    ensures NoneWhileCreating(c')
  {
    if c'.enrol.EnrolCreating? {
      OnlyQueryStartsCreating(c, s);
      var m := c'.enrol.machine;
      forall r ensures !RunningOf(c'.shared.runs, m, r) {
        if c'.enrol == c.enrol {
          NoNewRunning(c, s, c', m, r);
        } else {
          assert s == EnrolQuery(Missing) && c'.shared == c.shared;
        }
      }
    }
  }

  lemma {:induction false} CreatingEntersAlone(c: Config, s: Step)
    requires StepEnabled(c, s) && ApiTakesCare(c, s) && NoneWhileCreating(c)
    ensures EntersAlone(c, s)
  {
    if s.EnrolCreate? {
      forall t ensures !RunningOf(c.shared.runs, c.enrol.machine, t) {
      }
    }
  }

  lemma {:induction false} AtMostOneStep(c: Config, s: Step, c': Config)
    requires StepEnabled(c, s) && c' == StepTo(c, s) && ApiTakesCare(c, s)
    requires AtMostOneRunning(c.shared.runs) && NoneWhileCreating(c)
    ensures AtMostOneRunning(c'.shared.runs) && NoneWhileCreating(c')
  {
    CreatingEntersAlone(c, s);
    AtMostOneStepIff(c, s, c');
    NoneWhileCreatingStep(c, s, c');
  }

  /** So API starts are harmless as long as each finds no run of its machine running and the
      orchestrator not about to create one. */
  lemma {:induction false} CarefulApiKeepsAtMostOne(cs: seq<Config>, ss: seq<Step>, i: nat)
    requires Execution(cs, ss) && cs[0] == INITIAL && i < |cs|
    requires forall k | 0 <= k < |ss| :: ApiTakesCare(cs[k], ss[k])
    ensures AtMostOneRunning(cs[i].shared.runs) && NoneWhileCreating(cs[i])
  {
    if i > 0 {
      CarefulApiKeepsAtMostOne(cs, ss, i - 1);
      AtMostOneStep(cs[i - 1], ss[i - 1], cs[i]);
    }
  }

  /** With the orchestrator the only creator of runs no machine ever has two of them
      running, whatever interleaves and whatever is delivered again. */
  lemma {:induction false} AtMostOneAlways(cs: seq<Config>, ss: seq<Step>, i: nat)
    requires Execution(cs, ss) && cs[0] == INITIAL && i < |cs|
    requires forall k | 0 <= k < |ss| :: ProperStatus(ss[k]) && !ss[k].ApiStart?
    ensures AtMostOneRunning(cs[i].shared.runs)
  {
    forall k | 0 <= k < |ss| ensures ApiTakesCare(cs[k], ss[k]) {
      SavesStopAlways(cs, ss, k);
    }
    CarefulApiKeepsAtMostOne(cs, ss, i);
  }

  /** Where at most one runs, a machine's runs came to run as often as they stopped, or once
      more, and once more exactly while one of them is running. */
  lemma {:induction false} EntriesFollowExits(cs: seq<Config>, ss: seq<Step>, i: nat, m: Id)
    requires Execution(cs, ss) && cs[0] == INITIAL && i < |cs| && AtMostOneRunning(cs[i].shared.runs)
    ensures var entered := cs[i].created[m] + cs[i].reentered[m];
            && cs[i].exited[m] <= entered <= cs[i].exited[m] + 1
            && (entered > cs[i].exited[m] <==> exists r :: RunningOf(cs[i].shared.runs, m, r))
  {
    Conservation(cs, ss, i, m);
    var running := RunningSet(cs[i].shared.runs, m);
    if running != {} {
      var r :| r in running;
      assert running == {r};
      assert RunningOf(cs[i].shared.runs, m, r);
    } else {
      assert forall r :: RunningOf(cs[i].shared.runs, m, r) ==> r in running;
    }
  }

  /** An API start for a machine the orchestrator has just enrolled does break it. */
  lemma {:induction false} ApiStartBreaksAtMostOne(m: Id, a: Id, b: Id) returns (cs: seq<Config>, ss: seq<Step>)
    requires m != NIL && a != NIL && b != NIL && a != b
    ensures Execution(cs, ss) && cs[0] == INITIAL
    ensures !AtMostOneRunning(cs[|ss|].shared.runs)
  {
    cs, ss := Extend([INITIAL], [], EnrolReceive(m));
    cs, ss := Extend(cs, ss, EnrolQuery(Missing));
    cs, ss := Extend(cs, ss, EnrolCreate(a, 0, true));
    assert cs[|ss|].shared.runs == map[a := Run(m, RUNNING, 0)];
    cs, ss := Extend(cs, ss, ApiStart(0, m, b, 0));
    assert IsRunning(cs[|ss|].shared.runs, a) && IsRunning(cs[|ss|].shared.runs, b);
  }
}
