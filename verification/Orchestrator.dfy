/** The orchestrator's state machine: four event handlers over a table, a bus and a cache. */
module Orchestrator {
  import opened Text
  import opened RunProtocol
  import opened RunHandlers

  /** What the environment supplies to one handler call: a fresh identifier, the time, and
      which of its database and bus calls succeed. */
  datatype Env = Env(id: Id, now: int, queryOk: bool, writeOk: bool, publishOk: bool)

  predicate Cached(active: map<Id, Id>, m: Id) {
    m in active && active[m] != NIL
  }

  predicate HasRunning(runs: map<Id, Run>, m: Id) {
    exists r | r in runs :: runs[r].machine == m && runs[r].status == "running"
  }

  /** `r` is the running run of `m` that started last, the smallest id among equals. */
  predicate LatestRunning(runs: map<Id, Run>, m: Id, r: Id) {
    && r in runs && runs[r].machine == m && runs[r].status == "running"
    && forall s | s in runs && runs[s].machine == m && runs[s].status == "running" ::
         runs[s].startedAt < runs[r].startedAt || (runs[s].startedAt == runs[r].startedAt && r <= s)
  }

  /** Run `r` of `m`, then cached, is set to success, dropped from the cache and announced;
      the message is acknowledged only when all of that has been done. */
  ghost predicate Completed(before: Shared, m: Id, r: Id, env: Env, after: Shared, ok: bool)
    requires m in before.active
  {
    && ok == (env.writeOk && env.publishOk)
    && after.started == before.started
    && (!env.writeOk ==> after == before)
    && (env.writeOk ==>
          && after.runs == (if r in before.runs then before.runs[r := before.runs[r].(status := "success")] else before.runs)
          && after.active == before.active - {m}
          && after.finished == if env.publishOk then before.finished + {Notice(r, m, "success")} else before.finished)
  }

  lemma {:induction false} AnswerIsLatest(runs: map<Id, Run>, m: Id, l: Lookup)
    requires Answers(runs, m, l)
    ensures l.Found? ==> LatestRunning(runs, m, l.run) && HasRunning(runs, m)
    ensures l.Missing? ==> !HasRunning(runs, m)
  {
    forall s | s in runs && runs[s].machine == m && runs[s].status == "running" ensures RunningOf(runs, m, s) {
    }
    if l.Found? {
      forall s | s in runs && runs[s].machine == m && runs[s].status == "running"
        ensures runs[s].startedAt < runs[l.run].startedAt || (runs[s].startedAt == runs[l.run].startedAt && l.run <= s)
      {
        assert NotAfter(runs, l.run, s);
      }
    }
  }

  class RunTable {
    var runs: map<Id, Run>

    constructor ()
      ensures runs == map[]
    {
      runs := map[];
    }

    /** The running run of `m` that started last, the smaller id first among equals. */
    method FirstRunning(m: Id, ok: bool) returns (l: Lookup)
      ensures Answers(runs, m, l) && (l.Failed? <==> !ok)
      ensures l.Found? ==>
                && l.run in runs && runs[l.run].machine == m && runs[l.run].status == "running"
                && forall s | s in runs && runs[s].machine == m && runs[s].status == "running" ::
                     runs[s].startedAt < runs[l.run].startedAt || (runs[s].startedAt == runs[l.run].startedAt && l.run <= s)
      ensures l.Missing? ==> forall s | s in runs && runs[s].machine == m :: runs[s].status != "running"
      ensures (l.Found? ==> LatestRunning(runs, m, l.run)) && (ok ==> (l.Found? <==> HasRunning(runs, m)))
    {
      if !ok {
        return Failed;
      }
      l := Missing;
      var rows := runs.Keys;
      while rows != {}
        invariant rows <= runs.Keys && !l.Failed?
        invariant l.Missing? ==> forall s | RunningOf(runs, m, s) :: s in rows
        invariant l.Found? ==> RunningOf(runs, m, l.run) && forall s | RunningOf(runs, m, s) && s !in rows :: NotAfter(runs, l.run, s)
        decreases |rows|
      {
        var r :| r in rows;
        rows := rows - {r};
        if RunningOf(runs, m, r) && (l.Missing? || !NotAfter(runs, l.run, r)) {
          l := Found(r);
        }
      }
      AnswerIsLatest(runs, m, l);
    }

    method Create(r: Id, row: Run, ok: bool)
      modifies this
      ensures runs == if ok then old(runs)[r := row] else old(runs)
    {
      if ok {
        runs := runs[r := row];
      }
    }

    method UpdateStatus(r: Id, status: string, ok: bool)
      modifies this
      ensures runs == if ok then SetStatus(old(runs), r, status) else old(runs)
      ensures runs == if ok && r in old(runs) then old(runs)[r := old(runs)[r].(status := status)] else old(runs)
    {
      if ok && r in runs {
        runs := runs[r := runs[r].(status := status)];
      }
    }
  }

  /** The two lifecycle subjects; a message stays until its last copy is acknowledged. */
  class Bus {
    var started: set<Notice>
    var finished: set<Notice>

    constructor ()
      ensures started == finished == {}
    {
      started, finished := {}, {};
    }

    method PublishStarted(n: Notice, ok: bool)
      modifies this
      ensures started == if ok then old(started) + {n} else old(started)
      ensures finished == old(finished)
    {
      if ok {
        started := started + {n};
      }
    }

    method PublishFinished(n: Notice, ok: bool)
      modifies this
      ensures finished == if ok then old(finished) + {n} else old(finished)
      ensures started == old(started)
    {
      if ok {
        finished := finished + {n};
      }
    }
  }

  class StateMachine {
    const orm: RunTable
    const bus: Bus
    var activeRuns: map<Id, Id>

    constructor (orm: RunTable, bus: Bus)
      ensures this.orm == orm && this.bus == bus && activeRuns == map[]
    {
      this.orm, this.bus, activeRuns := orm, bus, map[];
    }

    ghost function View(): Shared
      reads this, orm, bus
    {
      Shared(orm.runs, activeRuns, bus.started, bus.finished)
    }

    method SetActiveRun(m: Id, r: Id)
      modifies this
      ensures View() == SetActive(old(View()), m, r) && activeRuns == old(activeRuns)[m := r]
    {
      activeRuns := activeRuns[m := r];
    }

    method ClearActiveRun(m: Id, r: Id)
      modifies this
      ensures View() == ClearActive(old(View()), m, r)
      ensures activeRuns == if m in old(activeRuns) && old(activeRuns)[m] == r then old(activeRuns) - {m} else old(activeRuns)
    {
      if m in activeRuns && activeRuns[m] == r {
        activeRuns := activeRuns - {m};
      }
    }

    /** `ok` is whether the message is acknowledged; `mv` is the move the call amounts to
        (with `Failed` for a query that was never made). */
    method HandleMachineEnrolled(m: Id, env: Env) returns (ok: bool, ghost mv: Move)
      requires FreshId(orm.runs, env.id)
      modifies this, orm, bus
      ensures mv.Enrolled? && mv.machine == m && Possible(old(View()), mv)
      ensures View() == Do(old(View()), mv) && ok == Acks(old(View()), mv)
      // A nameless machine is refused; one that has a cached run is acknowledged; either changes nothing.
      ensures m == NIL ==> !ok && View() == old(View())
      ensures m != NIL && Cached(old(activeRuns), m) ==> ok && View() == old(View())
      ensures m != NIL && env.queryOk && env.writeOk && env.publishOk ==> ok
      ensures ok ==> m != NIL && (NIL !in old(orm.runs) ==> Cached(activeRuns, m))
      // Otherwise the latest running run is adopted, or one is created, cached and announced.
      ensures m != NIL && !Cached(old(activeRuns), m) && env.queryOk && HasRunning(old(orm.runs), m) ==>
                && ok && orm.runs == old(orm.runs) && bus.started == old(bus.started) && bus.finished == old(bus.finished)
                && m in activeRuns && activeRuns == old(activeRuns)[m := activeRuns[m]] && LatestRunning(orm.runs, m, activeRuns[m])
      ensures m != NIL && !Cached(old(activeRuns), m) && env.queryOk && !HasRunning(old(orm.runs), m) && env.writeOk ==>
                && ok == env.publishOk && bus.finished == old(bus.finished)
                && orm.runs == old(orm.runs)[env.id := Run(m, "running", env.now)] && activeRuns == old(activeRuns)[m := env.id]
                && bus.started == if env.publishOk then old(bus.started) + {Notice(env.id, m, "running")} else old(bus.started)
      ensures !Cached(old(activeRuns), m) && (!env.queryOk || (!HasRunning(old(orm.runs), m) && !env.writeOk)) ==> !ok && View() == old(View())
    {
      mv := Enrolled(m, World(env.id, env.now, Failed, env.writeOk, env.publishOk));
      if m == NIL {
        return false, mv;
      }
      if m in activeRuns && activeRuns[m] != NIL {
        return true, mv;
      }
      var l := orm.FirstRunning(m, env.queryOk);
      mv := Enrolled(m, World(env.id, env.now, l, env.writeOk, env.publishOk));
      match l
      case Failed =>
        ok := false;
      case Found(r) =>
        SetActiveRun(m, r);
        ok := true;
      case Missing =>
        orm.Create(env.id, Run(m, RUNNING, env.now), env.writeOk);
        if !env.writeOk {
          return false, mv;
        }
        SetActiveRun(m, env.id);
        bus.PublishStarted(Notice(env.id, m, RUNNING), env.publishOk);
        ok := env.publishOk;
    }

    method HandleAgentFacts(m: Id, done: bool, env: Env) returns (ok: bool, ghost mv: Move)
      modifies this, orm, bus
      ensures mv.Facts? && mv.machine == m && mv.done == done && Possible(old(View()), mv)
      ensures View() == Do(old(View()), mv) && ok == Acks(old(View()), mv)
      // A nameless machine is refused, an ordinary fact acknowledged; either changes nothing.
      ensures m == NIL ==> !ok && View() == old(View())
      ensures m != NIL && !done ==> ok && View() == old(View())
      ensures m != NIL && env.queryOk && env.writeOk && env.publishOk ==> ok
      ensures ok ==> m != NIL
      // A post-install fact completes the cached run, or else the latest running one.
      ensures m != NIL && done && Cached(old(activeRuns), m) ==>
                Completed(old(View()), m, old(activeRuns)[m], env, View(), ok)
      ensures m != NIL && done && m !in old(activeRuns) && env.queryOk && HasRunning(old(orm.runs), m) && NIL !in old(orm.runs) ==>
                exists r :: LatestRunning(old(orm.runs), m, r) && Completed(old(View()).(active := old(activeRuns)[m := r]), m, r, env, View(), ok)
      ensures m != NIL && done && m !in old(activeRuns) && !env.queryOk ==> !ok && View() == old(View())
      ensures m != NIL && done && m !in old(activeRuns) && env.queryOk && !HasRunning(old(orm.runs), m) ==> ok && View() == old(View())
      ensures ok && done && m in old(activeRuns) && old(activeRuns)[m] != NIL ==> env.writeOk && env.publishOk && m !in activeRuns
    {
      mv := Facts(m, done, World(env.id, env.now, Failed, env.writeOk, env.publishOk));
      if m == NIL {
        return false, mv;
      }
      if !done {
        return true, mv;
      }
      var r;
      if m in activeRuns {
        r := activeRuns[m];
      } else {
        var l := orm.FirstRunning(m, env.queryOk);
        mv := Facts(m, done, World(env.id, env.now, l, env.writeOk, env.publishOk));
        match l
        case Failed =>
          return false, mv;
        case Missing =>
          return true, mv;
        case Found(found) =>
          r := found;
          SetActiveRun(m, r);
      }
      if r == NIL {
        return true, mv;
      }
      orm.UpdateStatus(r, SUCCESS, env.writeOk);
      if !env.writeOk {
        return false, mv;
      }
      ClearActiveRun(m, r);
      bus.PublishFinished(Notice(r, m, SUCCESS), env.publishOk);
      ok := env.publishOk;
    }

    method HandleRunStarted(n: Notice)
      modifies this
      ensures View() == OnStarted(old(View()), n, false)
      ensures activeRuns == if n.machine != NIL && n.run != NIL && EqualFold(n.status, "running") then old(activeRuns)[n.machine := n.run] else old(activeRuns)
    {
      if n.machine == NIL || n.run == NIL {
        return;
      }
      if EqualFold(n.status, RUNNING) {
        SetActiveRun(n.machine, n.run);
      }
    }

    method HandleRunFinished(n: Notice)
      modifies this
      ensures View() == OnFinished(old(View()), n, false)
      ensures activeRuns == if n.machine != NIL && n.run != NIL && n.machine in old(activeRuns) && old(activeRuns)[n.machine] == n.run
                            then old(activeRuns) - {n.machine} else old(activeRuns)
    {
      if n.machine == NIL || n.run == NIL {
        return;
      }
      ClearActiveRun(n.machine, n.run);
    }

    /** The subscription's wrapper round the started handler: run it, then acknowledge, which
        removes the message when the acknowledgement of its last copy gets through. */
    method ConsumeStarted(n: Notice, acked: bool)
      requires n in bus.started
      modifies this, bus
      ensures View() == Do(old(View()), Started(n, acked))
      ensures bus.started == if acked then old(bus.started) - {n} else old(bus.started)
      ensures bus.finished == old(bus.finished)
    {
      HandleRunStarted(n);
      if acked {
        bus.started := bus.started - {n};
      }
    }

    method ConsumeFinished(n: Notice, acked: bool)
      requires n in bus.finished
      modifies this, bus
      ensures View() == Do(old(View()), Finished(n, acked))
      ensures bus.finished == if acked then old(bus.finished) - {n} else old(bus.finished)
      ensures bus.started == old(bus.started)
    {
      HandleRunFinished(n);
      if acked {
        bus.finished := bus.finished - {n};
      }
    }
  }

  /** The API's two requests on the same table and bus. */
  class RunsApi {
    const orm: RunTable
    const bus: Bus

    constructor (orm: RunTable, bus: Bus)
      ensures this.orm == orm && this.bus == bus
    {
      this.orm, this.bus := orm, bus;
    }

    ghost function View(active: map<Id, Id>): Shared
      reads this, orm, bus
    {
      Shared(orm.runs, active, bus.started, bus.finished)
    }

    /** Answers whether a run was created, for which machine and blueprint must be named; a
        failed publish goes unreported. */
    method HandleRunStart(m: Id, blueprint: Id, env: Env, ghost active: map<Id, Id>) returns (created: bool)
      requires FreshId(orm.runs, env.id)
      modifies orm, bus
      ensures created <==> m != NIL && blueprint != NIL && env.writeOk
      ensures orm.runs == if created then old(orm.runs)[env.id := Run(m, "running", env.now)] else old(orm.runs)
      ensures bus.started == if created && env.publishOk then old(bus.started) + {Notice(env.id, m, "running")} else old(bus.started)
      ensures bus.finished == old(bus.finished)
      ensures View(active) == if m == NIL || blueprint == NIL then old(View(active))
                              else Do(old(View(active)), ApiStarted(m, World(env.id, env.now, Missing, env.writeOk, env.publishOk)))
    {
      if m == NIL {
        return false;
      }
      if blueprint == NIL {
        return false;
      }
      orm.Create(env.id, Run(m, RUNNING, env.now), env.writeOk);
      if !env.writeOk {
        return false;
      }
      bus.PublishStarted(Notice(env.id, m, RUNNING), env.publishOk);
      created := true;
    }

    /** Answers whether the run was finished; an unknown run, a blank status or a failing
        lookup is refused. */
    method HandleRunFinish(r: Id, raw: string, env: Env, ghost active: map<Id, Id>) returns (finished: bool)
      modifies orm, bus
      ensures finished <==> r != NIL && r in old(orm.runs) && TrimSpace(raw) != "" && env.queryOk && env.writeOk
      ensures orm.runs == if finished then old(orm.runs)[r := old(orm.runs)[r].(status := TrimSpace(raw))] else old(orm.runs)
      ensures bus.finished == if finished && env.publishOk then old(bus.finished) + {Notice(r, old(orm.runs)[r].machine, TrimSpace(raw))} else old(bus.finished)
      ensures bus.started == old(bus.started)
      ensures View(active) ==
              if r == NIL || r !in old(orm.runs) || TrimSpace(raw) == "" || !env.queryOk then old(View(active))
              else Do(old(View(active)), ApiFinished(r, TrimSpace(raw), World(env.id, env.now, Missing, env.writeOk, env.publishOk)))
    {
      if r == NIL {
        return false;
      }
      var status := TrimSpace(raw);
      if status == "" {
        return false;
      }
      if !env.queryOk || r !in orm.runs {
        return false;
      }
      var row := orm.runs[r].(status := status);
      orm.Create(r, row, env.writeOk);
      if !env.writeOk {
        return false;
      }
      bus.PublishFinished(Notice(r, row.machine, row.status), env.publishOk);
      finished := true;
    }
  }
}
