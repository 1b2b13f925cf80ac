/** Ingesting facts under at-least-once delivery, and what the audit log replays to. */
module FactAudit {
  import opened Wrappers
  import opened FactDiff

  type Id = nat

  const NIL: Id := 0

  datatype Fact = Fact(machine: Id, snapshot: Snapshot, createdAt: int)

  datatype Entry = Entry(machine: Id, fact: Id, changes: Changes)

  datatype Log = Log(facts: map<Id, Fact>, audit: seq<Entry>)

  const EMPTY := Log(map[], [])

  /** A fact event; a missing snapshot counts as empty, a missing time as the handling time. */
  datatype FactEvent = FactEvent(fact: Id, machine: Id, snapshot: Option<Snapshot>, createdAt: Option<int>)

  function SnapshotOf(e: FactEvent): Snapshot {
    if e.snapshot.Some? then e.snapshot.value else map[]
  }

  function FactOf(e: FactEvent, now: int): Fact {
    Fact(e.machine, SnapshotOf(e), if e.createdAt.Some? then e.createdAt.value else now)
  }

  /** The statement at which a handler call fails, if any. */
  datatype Fault = NoFault | AtLookup | AtInsert | AtAudit

  datatype Move =
    | Handled(event: FactEvent, now: int, previous: Option<Id>, fault: Fault)
    | StoredByApi(event: FactEvent, now: int)

  predicate OtherOf(facts: map<Id, Fact>, m: Id, current: Id, f: Id) {
    f in facts && facts[f].machine == m && f != current
  }

  /** Latest first, then smaller id. */
  predicate NotAfter(a: Id, fa: Fact, b: Id, fb: Fact) {
    fa.createdAt > fb.createdAt || (fa.createdAt == fb.createdAt && a <= b)
  }

  /** What the query for the latest other fact of the machine may answer. */
  ghost predicate PreviousAnswer(facts: map<Id, Fact>, m: Id, current: Id, answer: Option<Id>) {
    match answer
    case Some(f) => OtherOf(facts, m, current, f) && forall g | OtherOf(facts, m, current, g) :: NotAfter(f, facts[f], g, facts[g])
    case None => forall g :: !OtherOf(facts, m, current, g)
  }

  ghost predicate Possible(log: Log, mv: Move) {
    mv.Handled? ==> PreviousAnswer(log.facts, mv.event.machine, mv.event.fact, mv.previous)
  }

  function Insert(facts: map<Id, Fact>, id: Id, fact: Fact): map<Id, Fact> {
    if id in facts then facts else facts[id := fact]
  }

  function PreviousSnapshot(facts: map<Id, Fact>, answer: Option<Id>): Snapshot {
    if answer.Some? && answer.value in facts then facts[answer.value].snapshot else map[]
  }

  function Do(log: Log, mv: Move): Log {
    var e := mv.event;
    if e.fact == NIL || e.machine == NIL then log
    else if mv.StoredByApi? then log.(facts := Insert(log.facts, e.fact, FactOf(e, mv.now)))
    else if mv.fault.AtLookup? || mv.fault.AtInsert? then log
    else
      var facts := Insert(log.facts, e.fact, FactOf(e, mv.now));
      var entry := Entry(e.machine, e.fact, Diff(PreviousSnapshot(log.facts, mv.previous), SnapshotOf(e)));
      Log(facts, if mv.fault.AtAudit? then log.audit else log.audit + [entry])
  }

  // Replay --------------------------------------------------------------------------

  /** Fold the changes recorded for `m`, from the empty snapshot. */
  function Replay(audit: seq<Entry>, m: Id): Snapshot {
    if audit == [] then map[]
    else
      var last := audit[|audit| - 1];
      var before := Replay(audit[..|audit| - 1], m);
      if last.machine == m then Forward(before, last.changes) else before
  }

  predicate Audited(log: Log, f: Id) {
    exists i | 0 <= i < |log.audit| :: log.audit[i].fact == f
  }

  predicate OfMachine(log: Log, m: Id, f: Id) {
    f in log.facts && log.facts[f].machine == m
  }

  /** `e` carries the data of fact row `row`, if there is one yet. */
  predicate Carries(log: Log, e: FactEvent) {
    e.fact in log.facts ==> log.facts[e.fact].machine == e.machine && log.facts[e.fact].snapshot == SnapshotOf(e)
  }

  /** The delivery assumption: an event always carries its own fact's data, and is stored or
      handled, first or again, while every other stored fact of its machine is older and has
      been handled. */
  ghost predicate InOrder(log: Log, mv: Move) {
    var e := mv.event;
    var createdAt := if e.fact in log.facts then log.facts[e.fact].createdAt else FactOf(e, mv.now).createdAt;
    && Carries(log, e)
    && forall g | OtherOf(log.facts, e.machine, e.fact, g) :: log.facts[g].createdAt < createdAt && Audited(log, g)
  }

  ghost predicate History(logs: seq<Log>, ms: seq<Move>) {
    && |logs| == |ms| + 1
    && logs[0] == EMPTY
    && forall i | 0 <= i < |ms| :: Possible(logs[i], ms[i]) && logs[i + 1] == Do(logs[i], ms[i])
  }

  /** `f` is the newest handled fact of `m`. */
  ghost predicate NewestAudited(log: Log, m: Id, f: Id) {
    && OfMachine(log, m, f) && Audited(log, f)
    && forall g | OfMachine(log, m, g) && Audited(log, g) && g != f :: log.facts[g].createdAt < log.facts[f].createdAt
  }

  ghost predicate EntriesAreStored(log: Log) {
    forall i | 0 <= i < |log.audit| :: OfMachine(log, log.audit[i].machine, log.audit[i].fact)
  }

  ghost predicate DistinctTimes(log: Log, m: Id) {
    forall f, g | OfMachine(log, m, f) && OfMachine(log, m, g) && f != g :: log.facts[f].createdAt != log.facts[g].createdAt
  }

  /** The replay of `m` is its newest handled snapshot. */
  ghost predicate ReplaysNewest(log: Log, m: Id) {
    forall f | NewestAudited(log, m, f) :: Replay(log.audit, m) == Strip(log.facts[f].snapshot)
  }

  ghost predicate NoneAudited(log: Log, m: Id) {
    forall f | OfMachine(log, m, f) :: !Audited(log, f)
  }

  ghost predicate Faithful(log: Log, m: Id) {
    && EntriesAreStored(log) && DistinctTimes(log, m)
    && ReplaysNewest(log, m) && (NoneAudited(log, m) ==> Replay(log.audit, m) == map[])
  }

  lemma AuditAppends(log: Log, log': Log, entry: Entry)
    requires log'.audit == log.audit + [entry]
    ensures forall f :: Audited(log', f) <==> Audited(log, f) || f == entry.fact
    ensures forall m :: Replay(log'.audit, m) == if entry.machine == m then Forward(Replay(log.audit, m), entry.changes) else Replay(log.audit, m)
  {
    assert log'.audit[..|log'.audit| - 1] == log.audit;
    forall f ensures Audited(log', f) <==> Audited(log, f) || f == entry.fact {
      if Audited(log, f) {
        var i :| 0 <= i < |log.audit| && log.audit[i].fact == f;
        assert log'.audit[i].fact == f;
      }
      assert log'.audit[|log.audit|].fact == entry.fact;
    }
  }

  /** What the query answers in order: the newest handled fact other than this one. */
  lemma PreviousIsNewestHandled(log: Log, mv: Move)
    requires mv.Handled? && Possible(log, mv) && InOrder(log, mv) && Faithful(log, mv.event.machine)
    ensures mv.previous.Some? && !(mv.event.fact in log.facts && Audited(log, mv.event.fact)) ==>
              NewestAudited(log, mv.event.machine, mv.previous.value)
    ensures mv.previous.None? ==> forall f | OfMachine(log, mv.event.machine, f) :: f == mv.event.fact
  {
    var m, current := mv.event.machine, mv.event.fact;
    if mv.previous.Some? {
      var f := mv.previous.value;
      forall g | OfMachine(log, m, g) && g != f && g != current ensures log.facts[g].createdAt < log.facts[f].createdAt {
        assert OtherOf(log.facts, m, current, g);
      }
    } else {
      forall f | OfMachine(log, m, f) ensures f == current {
        assert !OtherOf(log.facts, m, current, f);
      }
    }
  }

  lemma {:induction false} ReplayIsStripped(audit: seq<Entry>, m: Id)
    ensures Strip(Replay(audit, m)) == Replay(audit, m)
  {
    if audit != [] {
      var n := |audit| - 1;
      ReplayIsStripped(audit[..n], m);
      ForwardStaysStripped(Replay(audit[..n], m), audit[n].changes);
    }
  }

  /** The call is one that succeeds. */
  predicate Succeeds(mv: Move) {
    mv.Handled? && mv.fault.NoFault? && mv.event.fact != NIL && mv.event.machine != NIL
  }

  /** The replay agrees with the event's snapshot wherever the snapshot it is compared with does. */
  ghost predicate ReplayAgrees(log: Log, mv: Move)
    requires mv.Handled?
  {
    AgreesWhereSame(Replay(log.audit, mv.event.machine), PreviousSnapshot(log.facts, mv.previous), SnapshotOf(mv.event))
  }

  /** In whatever order events come: the entry of a successful call takes the replay to the
      event's own snapshot exactly when the replay agreed with it wherever the fact it was
      compared with does, which can be read off the log before the call. */
  lemma {:induction false} EntryCatchesUpIff(log: Log, mv: Move)
    requires Succeeds(mv)
    ensures Replay(Do(log, mv).audit, mv.event.machine) == Strip(SnapshotOf(mv.event)) <==> ReplayAgrees(log, mv)
  {
    var m := mv.event.machine;
    var before := PreviousSnapshot(log.facts, mv.previous);
    AuditAppends(log, Do(log, mv), Entry(m, mv.event.fact, Diff(before, SnapshotOf(mv.event))));
    ReplayIsStripped(log.audit, m);
    ForwardReachesIff(Replay(log.audit, m), before, SnapshotOf(mv.event));
  }

  lemma {:induction false} OnlyOwnSuccessesReplay(log: Log, mv: Move, m: Id)
    requires !(Succeeds(mv) && mv.event.machine == m)
    ensures Replay(Do(log, mv).audit, m) == Replay(log.audit, m)
  {
    if Succeeds(mv) {
      AuditAppends(log, Do(log, mv),
                   Entry(mv.event.machine, mv.event.fact, Diff(PreviousSnapshot(log.facts, mv.previous), SnapshotOf(mv.event))));
    }
  }

  /** Over any history, without any assumption on its order: as long as the event handled at
      `i` is the last one handled of its machine, the audit log replays to its snapshot
      exactly when the replay agreed with it, in that sense, at `i`. */
  lemma {:induction false} ReplayIsLastHandledIff(logs: seq<Log>, ms: seq<Move>, i: nat, n: nat)
    requires History(logs, ms) && i < n <= |ms| && Succeeds(ms[i])
    requires forall k | i < k < n :: !(Succeeds(ms[k]) && ms[k].event.machine == ms[i].event.machine)
    ensures Replay(logs[n].audit, ms[i].event.machine) == Strip(SnapshotOf(ms[i].event)) <==> ReplayAgrees(logs[i], ms[i])
  {
    if n == i + 1 {
      EntryCatchesUpIff(logs[i], ms[i]);
    } else {
      ReplayIsLastHandledIff(logs, ms, i, n - 1);
      OnlyOwnSuccessesReplay(logs[n - 1], ms[n - 1], ms[i].event.machine);
    }
  }

  lemma {:induction false} StrippedAgrees(x: Snapshot, previous: Snapshot, current: Snapshot)
    requires x == previous || x == current
    ensures AgreesWhereSame(Strip(x), previous, current)
  {
    forall k | !Differs(previous, current, k) ensures Get(Strip(x), k) == Get(current, k) {
      ForwardAt(x, previous, current, k);
    }
  }

  /** In order the replay does agree, whether the fact is handled for the first time or again. */
  lemma {:induction false} InOrderReplayAgrees(log: Log, mv: Move)
    requires mv.Handled? && Possible(log, mv) && InOrder(log, mv) && Faithful(log, mv.event.machine)
    ensures ReplayAgrees(log, mv)
  {
    var m, f := mv.event.machine, mv.event.fact;
    var before := PreviousSnapshot(log.facts, mv.previous);
    PreviousIsNewestHandled(log, mv);
    StrippedAgrees(before, before, SnapshotOf(mv.event));
    StrippedAgrees(SnapshotOf(mv.event), before, SnapshotOf(mv.event));
    if f in log.facts && Audited(log, f) {
      forall g | OfMachine(log, m, g) && Audited(log, g) && g != f ensures log.facts[g].createdAt < log.facts[f].createdAt {
        assert OtherOf(log.facts, m, f, g);
      }
      assert NewestAudited(log, m, f);
    } else if mv.previous.None? {
      assert Replay(log.audit, m) == map[] == Strip(before);
    }
  }

  /** So the changes of a call in order lead the replay to the event's own snapshot. */
  lemma {:induction false} EntryCatchesUp(log: Log, mv: Move)
    requires mv.Handled? && Possible(log, mv) && InOrder(log, mv) && Faithful(log, mv.event.machine)
    ensures Forward(Replay(log.audit, mv.event.machine), Diff(PreviousSnapshot(log.facts, mv.previous), SnapshotOf(mv.event))) ==
            Strip(SnapshotOf(mv.event))
  {
    InOrderReplayAgrees(log, mv);
    ReplayIsStripped(log.audit, mv.event.machine);
    ForwardReachesIff(Replay(log.audit, mv.event.machine), PreviousSnapshot(log.facts, mv.previous), SnapshotOf(mv.event));
  }

  /** A newly stored fact has not been handled, and the rows there already are untouched. */
  lemma StoredIsUnhandled(log: Log, id: Id, fact: Fact)
    requires forall i | 0 <= i < |log.audit| :: log.audit[i].fact in log.facts
    requires id !in log.facts
    ensures var log' := log.(facts := log.facts[id := fact]);
            && !Audited(log', id)
            && (forall f :: Audited(log', f) <==> Audited(log, f))
            && (forall m, f :: OfMachine(log', m, f) <==> OfMachine(log, m, f) || (f == id && fact.machine == m))
  {
  }

  lemma NewestWasNewest(log: Log, id: Id, fact: Fact, m: Id, f: Id)
    requires forall i | 0 <= i < |log.audit| :: log.audit[i].fact in log.facts
    requires id !in log.facts && NewestAudited(log.(facts := log.facts[id := fact]), m, f)
    ensures NewestAudited(log, m, f)
  {
    var log' := log.(facts := log.facts[id := fact]);
    StoredIsUnhandled(log, id, fact);
    forall g | OfMachine(log, m, g) && Audited(log, g) && g != f ensures log.facts[g].createdAt < log.facts[f].createdAt {
      assert OfMachine(log', m, g) && Audited(log', g);
    }
  }

  lemma {:induction false} StoringKeepsTimes(log: Log, id: Id, fact: Fact, m: Id)
    requires DistinctTimes(log, m) && id !in log.facts
    requires forall g | OfMachine(log, fact.machine, g) :: log.facts[g].createdAt < fact.createdAt
    ensures DistinctTimes(log.(facts := log.facts[id := fact]), m)
  {
    var log' := log.(facts := log.facts[id := fact]);
    forall f, g | OfMachine(log', m, f) && OfMachine(log', m, g) && f != g ensures log'.facts[f].createdAt != log'.facts[g].createdAt {
      assert f != id ==> OfMachine(log, m, f);
      assert g != id ==> OfMachine(log, m, g);
    }
  }

  lemma {:induction false} StoringKeepsNewest(log: Log, id: Id, fact: Fact, m: Id)
    requires EntriesAreStored(log) && ReplaysNewest(log, m) && id !in log.facts
    ensures ReplaysNewest(log.(facts := log.facts[id := fact]), m)
  {
    var log' := log.(facts := log.facts[id := fact]);
    forall f | NewestAudited(log', m, f) ensures Replay(log'.audit, m) == Strip(log'.facts[f].snapshot) {
      NewestWasNewest(log, id, fact, m, f);
      assert f != id && log'.facts[f] == log.facts[f];
    }
  }

  lemma {:induction false} NoneWasAudited(log: Log, id: Id, fact: Fact, m: Id)
    requires id !in log.facts && NoneAudited(log.(facts := log.facts[id := fact]), m)
    ensures NoneAudited(log, m)
  {
    var log' := log.(facts := log.facts[id := fact]);
    forall f | OfMachine(log, m, f) ensures !Audited(log, f) {
      assert OfMachine(log', m, f) && !Audited(log', f);
    }
  }

  /** Storing a newer fact does not change what has been handled. */
  lemma {:induction false} StoringKeepsFaithful(log: Log, e: FactEvent, now: int, m: Id)
    requires Faithful(log, m)
    requires e.fact !in log.facts ==>
               forall g | OfMachine(log, e.machine, g) :: log.facts[g].createdAt < FactOf(e, now).createdAt
    ensures Faithful(log.(facts := Insert(log.facts, e.fact, FactOf(e, now))), m)
  {
    if e.fact !in log.facts {
      StoringKeepsTimes(log, e.fact, FactOf(e, now), m);
      StoringKeepsNewest(log, e.fact, FactOf(e, now), m);
      if NoneAudited(log.(facts := log.facts[e.fact := FactOf(e, now)]), m) {
        NoneWasAudited(log, e.fact, FactOf(e, now), m);
      }
    }
  }

  lemma {:induction false} NewestIsLatest(log: Log, m: Id, f: Id, g: Id)
    requires NewestAudited(log, m, f) && OfMachine(log, m, g) && Audited(log, g)
    requires f != g ==> log.facts[f].createdAt < log.facts[g].createdAt
    ensures f == g
  {
  }

  /** Recording the newest fact, with changes that lead to its snapshot, brings the replay up to it. */
  lemma {:induction false} RecordingKeepsOwn(log: Log, entry: Entry)
    requires Faithful(log, entry.machine) && OfMachine(log, entry.machine, entry.fact)
    requires forall g | OfMachine(log, entry.machine, g) && g != entry.fact :: log.facts[g].createdAt < log.facts[entry.fact].createdAt
    requires Forward(Replay(log.audit, entry.machine), entry.changes) == Strip(log.facts[entry.fact].snapshot)
    ensures Faithful(log.(audit := log.audit + [entry]), entry.machine)
  {
    var log', m := log.(audit := log.audit + [entry]), entry.machine;
    AuditAppends(log, log', entry);
    assert OfMachine(log', m, entry.fact) && Audited(log', entry.fact);
    forall f | NewestAudited(log', m, f) ensures f == entry.fact {
      assert OfMachine(log, m, f);
      NewestIsLatest(log', m, f, entry.fact);
    }
  }

  lemma {:induction false} RecordingKeepsOthers(log: Log, entry: Entry, m: Id)
    requires Faithful(log, m) && OfMachine(log, entry.machine, entry.fact) && m != entry.machine
    ensures Faithful(log.(audit := log.audit + [entry]), m)
  {
    var log' := log.(audit := log.audit + [entry]);
    AuditAppends(log, log', entry);
    forall f ensures OfMachine(log', m, f) <==> OfMachine(log, m, f) {
    }
    forall f | OfMachine(log, m, f) ensures Audited(log', f) <==> Audited(log, f) {
      assert f != entry.fact;
    }
    forall f | NewestAudited(log', m, f) ensures NewestAudited(log, m, f) {
      forall g | OfMachine(log, m, g) && Audited(log, g) && g != f ensures log.facts[g].createdAt < log.facts[f].createdAt {
        assert OfMachine(log', m, g) && Audited(log', g);
      }
    }
  }

  lemma OthersAreOlder(log: Log, mv: Move)
    requires InOrder(log, mv)
    ensures var e := mv.event;
            var createdAt := if e.fact in log.facts then log.facts[e.fact].createdAt else FactOf(e, mv.now).createdAt;
            forall g | OfMachine(log, e.machine, g) && g != e.fact :: log.facts[g].createdAt < createdAt
  {
    var e := mv.event;
    forall g | OfMachine(log, e.machine, g) && g != e.fact ensures OtherOf(log.facts, e.machine, e.fact, g) {
    }
  }

  lemma {:induction false} HandlingKeepsFaithful(log: Log, mv: Move, m: Id, stored: Log)
    requires mv.Handled? && Possible(log, mv) && InOrder(log, mv) && Faithful(log, mv.event.machine)
    requires stored == log.(facts := Insert(log.facts, mv.event.fact, FactOf(mv.event, mv.now))) && Faithful(stored, m)
    ensures var entry := Entry(mv.event.machine, mv.event.fact, Diff(PreviousSnapshot(log.facts, mv.previous), SnapshotOf(mv.event)));
            Faithful(stored.(audit := stored.audit + [entry]), m)
  {
    var e := mv.event;
    var entry := Entry(e.machine, e.fact, Diff(PreviousSnapshot(log.facts, mv.previous), SnapshotOf(e)));
    if e.machine == m {
      OthersAreOlder(log, mv);
      EntryCatchesUp(log, mv);
      RecordingKeepsOwn(stored, entry);
    } else {
      RecordingKeepsOthers(stored, entry, m);
    }
  }

  lemma {:induction false} FaithfulStep(log: Log, mv: Move, m: Id)
    requires Possible(log, mv) && InOrder(log, mv) && Faithful(log, m) && Faithful(log, mv.event.machine)
    ensures Faithful(Do(log, mv), m)
  {
    var e, log' := mv.event, Do(log, mv);
    if log' != log {
      OthersAreOlder(log, mv);
      StoringKeepsFaithful(log, e, mv.now, m);
      var stored := log.(facts := Insert(log.facts, e.fact, FactOf(e, mv.now)));
      if log' != stored {
        HandlingKeepsFaithful(log, mv, m, stored);
      }
    }
  }

  lemma {:induction false} FaithfulAlways(logs: seq<Log>, ms: seq<Move>, i: nat, m: Id)
    requires History(logs, ms) && i < |logs| && forall k | 0 <= k < |ms| :: InOrder(logs[k], ms[k])
    ensures Faithful(logs[i], m)
  {
    if i > 0 {
      FaithfulAlways(logs, ms, i - 1, m);
      FaithfulAlways(logs, ms, i - 1, ms[i - 1].event.machine);
      FaithfulStep(logs[i - 1], ms[i - 1], m);
    }
  }

  /** However often events are delivered and however often storing or auditing fails and is
      retried: once the newest fact of a machine is handled, replaying the audit log gives
      its snapshot, null identified with absent. */
  lemma {:induction false} ReplayIsLatestSnapshot(logs: seq<Log>, ms: seq<Move>, m: Id, latest: Id)
    requires History(logs, ms) && forall k | 0 <= k < |ms| :: InOrder(logs[k], ms[k])
    requires var log := logs[|ms|];
             && OfMachine(log, m, latest) && Audited(log, latest)
             && forall g | OfMachine(log, m, g) && g != latest :: log.facts[g].createdAt <= log.facts[latest].createdAt
    ensures Replay(logs[|ms|].audit, m) == Strip(logs[|ms|].facts[latest].snapshot)
  {
    FaithfulAlways(logs, ms, |ms|, m);
    assert NewestAudited(logs[|ms|], m, latest);
  }

  lemma {:induction false} OtherIsTheAnswer(facts: map<Id, Fact>, m: Id, a: Id, b: Id)
    requires a != b && facts.Keys == {a, b} && facts[a].machine == facts[b].machine == m
    ensures PreviousAnswer(facts, m, a, Some(b))
  {
  }

  /** Handling a stored fact whose machine's other fact has the same snapshot records no change. */
  lemma {:induction false} SameSnapshotRecordsNothing(log: Log, e: FactEvent, now: int, other: Id)
    requires e.fact in log.facts && other in log.facts && e.fact != NIL && e.machine != NIL
    requires log.facts[other].snapshot == SnapshotOf(e)
    ensures Do(log, Handled(e, now, Some(other), NoFault)) == Log(log.facts, log.audit + [Entry(e.machine, e.fact, map[])])
  {
    EmptyIffEqual(SnapshotOf(e), SnapshotOf(e));
  }

  lemma {:induction false} EmptyChangesReplayToNothing(m: Id, a: Id, b: Id)
    ensures Replay([Entry(m, a, map[]), Entry(m, b, map[])], m) == map[]
  {
    var first, second := Log(map[], [Entry(m, a, map[])]), Log(map[], [Entry(m, a, map[]), Entry(m, b, map[])]);
    AuditAppends(EMPTY, first, Entry(m, a, map[]));
    assert second.audit == first.audit + [Entry(m, b, map[])];
    AuditAppends(first, second, Entry(m, b, map[]));
  }

  lemma {:induction false} HistoryExtends(logs: seq<Log>, ms: seq<Move>, mv: Move, log: Log)
    requires History(logs, ms) && Possible(logs[|ms|], mv) && log == Do(logs[|ms|], mv)
    ensures History(logs + [log], ms + [mv])
  {
    var logs', ms' := logs + [log], ms + [mv];
    forall i | 0 <= i < |ms'| ensures Possible(logs'[i], ms'[i]) && logs'[i + 1] == Do(logs'[i], ms'[i]) {
      if i < |ms| {
        assert logs'[i] == logs[i] && logs'[i + 1] == logs[i + 1] && ms'[i] == ms[i];
      }
    }
  }

  lemma {:induction false} BothStored(ea: FactEvent, eb: FactEvent) returns (logs: seq<Log>, ms: seq<Move>)
    requires ea.fact != NIL && eb.fact != NIL && ea.fact != eb.fact && ea.machine != NIL && eb.machine != NIL
    ensures History(logs, ms)
    ensures logs[|ms|] == Log(map[ea.fact := FactOf(ea, 1), eb.fact := FactOf(eb, 2)], [])
  {
    var l1 := Log(map[ea.fact := FactOf(ea, 1)], []);
    var l2 := Log(map[ea.fact := FactOf(ea, 1), eb.fact := FactOf(eb, 2)], []);
    logs, ms := [EMPTY], [];
    HistoryExtends(logs, ms, StoredByApi(ea, 1), l1);
    HistoryExtends([EMPTY] + [l1], [] + [StoredByApi(ea, 1)], StoredByApi(eb, 2), l2);
    logs, ms := [EMPTY] + [l1] + [l2], [] + [StoredByApi(ea, 1)] + [StoredByApi(eb, 2)];
  }

  /** The order is needed: when the API has stored two facts before the first is handled,
      each is compared with the other and what they share is never recorded. */
  lemma {:induction false} OutOfOrderLosesFacts(m: Id, a: Id, b: Id, s: Snapshot) returns (logs: seq<Log>, ms: seq<Move>)
    requires m != NIL && a != NIL && b != NIL && a != b && Strip(s) != map[]
    ensures History(logs, ms) && OfMachine(logs[|ms|], m, b) && logs[|ms|].facts[b].snapshot == s
    ensures OfMachine(logs[|ms|], m, a) && Audited(logs[|ms|], a) && Audited(logs[|ms|], b)
    ensures logs[|ms|].facts[a].createdAt < logs[|ms|].facts[b].createdAt
    ensures Replay(logs[|ms|].audit, m) == map[] != Strip(s)
  {
    var ea, eb := FactEvent(a, m, Some(s), Some(1)), FactEvent(b, m, Some(s), Some(2));
    logs, ms := BothStored(ea, eb);
    var facts := logs[|ms|].facts;
    var l3, l4 := Log(facts, [Entry(m, a, map[])]), Log(facts, [Entry(m, a, map[]), Entry(m, b, map[])]);
    OtherIsTheAnswer(facts, m, a, b);
    OtherIsTheAnswer(facts, m, b, a);
    SameSnapshotRecordsNothing(logs[|ms|], ea, 3, b);
    SameSnapshotRecordsNothing(l3, eb, 4, a);
    HistoryExtends(logs, ms, Handled(ea, 3, Some(b), NoFault), l3);
    logs, ms := logs + [l3], ms + [Handled(ea, 3, Some(b), NoFault)];
    HistoryExtends(logs, ms, Handled(eb, 4, Some(a), NoFault), l4);
    logs, ms := logs + [l4], ms + [Handled(eb, 4, Some(a), NoFault)];
    EmptyChangesReplayToNothing(m, a, b);
    assert l4.audit[0].fact == a && l4.audit[1].fact == b;
  }
}
