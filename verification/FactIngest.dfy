/** The ingestor: one handler over the fact table and the audit log. */
module FactIngest {
  import opened Wrappers
  import opened FactDiff
  import opened FactAudit

  /** `f` is the fact of `m` other than `current` created last, the smallest id among equals. */
  ghost predicate IsLatestOther(facts: map<Id, Fact>, m: Id, current: Id, f: Id) {
    && f in facts && facts[f].machine == m && f != current
    && forall g | g in facts && facts[g].machine == m && g != current ::
         facts[g].createdAt < facts[f].createdAt || (facts[g].createdAt == facts[f].createdAt && f <= g)
  }

  lemma {:induction false} AnswerIsLatestOther(facts: map<Id, Fact>, m: Id, current: Id, answer: Option<Id>)
    requires PreviousAnswer(facts, m, current, answer)
    ensures answer.Some? ==> IsLatestOther(facts, m, current, answer.value)
    ensures answer.None? ==> forall g | g in facts && g != current :: facts[g].machine != m
  {
    forall g | g in facts && facts[g].machine == m && g != current ensures OtherOf(facts, m, current, g) {
    }
  }

  /** The fact is stored, unless one of its id already is. */
  predicate StoredOnce(before: map<Id, Fact>, after: map<Id, Fact>, e: FactEvent, now: int) {
    after == if e.fact in before then before
             else before[e.fact := Fact(e.machine, if e.snapshot.Some? then e.snapshot.value else map[],
                                        if e.createdAt.Some? then e.createdAt.value else now)]
  }

  class Ingestor {
    var facts: map<Id, Fact>
    var audit: seq<Entry>

    constructor ()
      ensures View() == EMPTY
    {
      facts, audit := map[], [];
    }

    ghost function View(): Log
      reads this
    {
      Log(facts, audit)
    }

    /** The latest fact of the machine other than the current one. */
    method PreviousFact(m: Id, current: Id) returns (answer: Option<Id>)
      ensures PreviousAnswer(facts, m, current, answer)
      ensures answer.Some? ==> IsLatestOther(facts, m, current, answer.value)
      ensures answer.None? ==> forall g | g in facts && g != current :: facts[g].machine != m
    {
      answer := None;
      var rows := facts.Keys;
      while rows != {}
        invariant rows <= facts.Keys
        invariant answer.None? ==> forall g | OtherOf(facts, m, current, g) :: g in rows
        invariant answer.Some? ==> OtherOf(facts, m, current, answer.value)
        invariant answer.Some? ==> forall g | OtherOf(facts, m, current, g) && g !in rows ::
                    NotAfter(answer.value, facts[answer.value], g, facts[g])
        decreases |rows|
      {
        var f :| f in rows;
        rows := rows - {f};
        if OtherOf(facts, m, current, f) &&
           (answer.None? || !NotAfter(answer.value, facts[answer.value], f, facts[f])) {
          answer := Some(f);
        }
      }
      AnswerIsLatestOther(facts, m, current, answer);
    }

    /** A fact already stored under this id is left as it is. */
    method InsertFact(id: Id, fact: Fact)
      modifies this`facts
      ensures facts == Insert(old(facts), id, fact)
    {
      if id !in facts {
        facts := facts[id := fact];
      }
    }

    /** `ok` is whether the event is acknowledged; otherwise it will be delivered again. */
    method HandleFact(e: FactEvent, now: int, fault: Fault) returns (ok: bool, ghost mv: Move)
      modifies this
      ensures mv.Handled? && mv.event == e && mv.now == now && mv.fault == fault && Possible(old(View()), mv)
      ensures View() == Do(old(View()), mv)
      ensures ok <==> e.fact != NIL && e.machine != NIL && fault.NoFault?
      ensures e.fact == NIL || e.machine == NIL || fault.AtLookup? || fault.AtInsert? ==> View() == old(View())
      ensures e.fact != NIL && e.machine != NIL && (ok || fault.AtAudit?) ==> StoredOnce(old(facts), facts, e, now)
      ensures !ok ==> audit == old(audit)
      // The entry compares the event with the latest other fact of its machine before it.
      ensures mv.previous.Some? ==> IsLatestOther(old(facts), e.machine, e.fact, mv.previous.value)
      ensures mv.previous.None? ==> forall g | g in old(facts) && g != e.fact :: old(facts)[g].machine != e.machine
      ensures ok ==>
                && |audit| == |old(audit)| + 1 && audit[..|old(audit)|] == old(audit)
                && audit[|old(audit)|].machine == e.machine && audit[|old(audit)|].fact == e.fact
                && RecordsChanges(if mv.previous.Some? then old(facts)[mv.previous.value].snapshot else map[],
                                  if e.snapshot.Some? then e.snapshot.value else map[], audit[|old(audit)|].changes)
    {
      // The query changes nothing, so it is asked before the checks that may make it needless.
      var previous := PreviousFact(e.machine, e.fact);
      mv := Handled(e, now, previous, fault);
      if e.fact == NIL || e.machine == NIL || fault.AtLookup? {
        return false, mv;
      }
      var snapshot := if previous.Some? then facts[previous.value].snapshot else map[];
      if fault.AtInsert? {
        return false, mv;
      }
      InsertFact(e.fact, FactOf(e, now));
      var diff := ComputeDiff(snapshot, SnapshotOf(e));
      if fault.AtAudit? {
        return false, mv;
      }
      audit := audit + [Entry(e.machine, e.fact, diff)];
      ok := true;
    }

    /** The API stores a fact before it publishes the event. */
    method StoreFact(e: FactEvent, now: int)
      requires e.fact != NIL && e.machine != NIL
      modifies this
      ensures View() == Do(old(View()), StoredByApi(e, now))
      ensures StoredOnce(old(facts), facts, e, now) && audit == old(audit)
    {
      InsertFact(e.fact, FactOf(e, now));
    }
  }
}
