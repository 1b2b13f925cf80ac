/** Whole handlers: each call as one move on the shared tables. */
module RunHandlers {
  import opened RunProtocol

  /** What the outside world decides about one handler call: the identifier and instant a
      new run gets, the query's answer, and which writes and publishes succeed. */
  datatype World = World(id: Id, now: int, lookup: Lookup, writeOk: bool, publishOk: bool)

  datatype Move =
    | Enrolled(machine: Id, world: World)
    | Facts(machine: Id, done: bool, world: World)
    | Started(notice: Notice, acked: bool)
    | Finished(notice: Notice, acked: bool)
    | ApiStarted(machine: Id, world: World)
    | ApiFinished(run: Id, status: string, world: World)

  ghost predicate Possible(sh: Shared, mv: Move) {
    match mv
    case Enrolled(m, w) => Answers(sh.runs, m, w.lookup) && FreshId(sh.runs, w.id)
    case Facts(m, _, w) => Answers(sh.runs, m, w.lookup)
    case Started(n, _) => n in sh.started
    case Finished(n, _) => n in sh.finished
    case ApiStarted(m, w) => m != NIL && FreshId(sh.runs, w.id)
    case ApiFinished(r, status, _) => r in sh.runs && status != ""
  }

  function DoEnrolled(sh: Shared, m: Id, w: World): Shared {
    if m == NIL || (m in sh.active && sh.active[m] != NIL) then sh
    else
      match w.lookup
      case Failed => sh
      case Found(r) => SetActive(sh, m, r)
      case Missing =>
        if !w.writeOk then sh
        else PublishStarted(SetActive(sh.(runs := sh.runs[w.id := Run(m, RUNNING, w.now)]), m, w.id),
                            Notice(w.id, m, RUNNING), w.publishOk)
  }

  function Complete(sh: Shared, m: Id, r: Id, w: World): Shared {
    if !w.writeOk then sh
    else PublishFinished(ClearActive(sh.(runs := SetStatus(sh.runs, r, SUCCESS)), m, r), Notice(r, m, SUCCESS), w.publishOk)
  }

  function DoFacts(sh: Shared, m: Id, done: bool, w: World): Shared {
    if m == NIL || !done then sh
    else if m in sh.active then
      (if sh.active[m] == NIL then sh else Complete(sh, m, sh.active[m], w))
    else
      match w.lookup
      case Found(r) => if r == NIL then SetActive(sh, m, r) else Complete(SetActive(sh, m, r), m, r, w)
      case _ => sh
  }

  function Do(sh: Shared, mv: Move): Shared
    requires Possible(sh, mv)
  {
    match mv
    case Enrolled(m, w) => DoEnrolled(sh, m, w)
    case Facts(m, done, w) => DoFacts(sh, m, done, w)
    case Started(n, acked) => OnStarted(sh, n, acked)
    case Finished(n, acked) => OnFinished(sh, n, acked)
    case ApiStarted(m, w) =>
      if !w.writeOk then sh
      else PublishStarted(sh.(runs := sh.runs[w.id := Run(m, RUNNING, w.now)]), Notice(w.id, m, RUNNING), w.publishOk)
    case ApiFinished(r, status, w) =>
      if !w.writeOk then sh
      else PublishFinished(sh.(runs := SetStatus(sh.runs, r, status)), Notice(r, sh.runs[r].machine, status), w.publishOk)
  }

  /** Whether the handler reports success, so that its message is acknowledged and not redelivered. */
  predicate Acks(sh: Shared, mv: Move) {
    match mv
    case Enrolled(m, w) =>
      m != NIL && (
        || (m in sh.active && sh.active[m] != NIL)
        || w.lookup.Found?
        || (w.lookup.Missing? && w.writeOk && w.publishOk))
    case Facts(m, done, w) =>
      m != NIL && (
        || !done
        || (if m in sh.active then sh.active[m] == NIL || (w.writeOk && w.publishOk)
            else w.lookup.Missing? || (w.lookup.Found? && (w.lookup.run == NIL || (w.writeOk && w.publishOk)))))
    case _ => true
  }

  // A whole handler is its sub-steps with nothing in between ------------------------------

  ghost predicate Idle(c: Config) {
    c.enrol.EnrolIdle? && c.facts.FactsIdle?
  }

  lemma {:induction false} EnrolledIsSubSteps(c: Config, m: Id, w: World) returns (cs: seq<Config>, ss: seq<Step>)
    requires Idle(c) && Possible(c.shared, Enrolled(m, w))
    ensures Execution(cs, ss) && cs[0] == c && Idle(cs[|ss|])
    ensures cs[|ss|].shared == Do(c.shared, Enrolled(m, w))
  {
    cs, ss := [c], [];
    cs, ss := Extend(cs, ss, EnrolReceive(m));
    if cs[|ss|].enrol.EnrolQuerying? {
      cs, ss := Extend(cs, ss, EnrolQuery(w.lookup));
      match w.lookup
      case Failed =>
      case Found(r) =>
        cs, ss := Extend(cs, ss, EnrolAdopt);
      case Missing =>
        cs, ss := Extend(cs, ss, EnrolCreate(w.id, w.now, w.writeOk));
        if w.writeOk {
          cs, ss := Extend(cs, ss, EnrolCache);
          cs, ss := Extend(cs, ss, EnrolAnnounce(w.publishOk));
        }
    }
  }

  lemma {:induction false} CompletionIsSubSteps(cs0: seq<Config>, ss0: seq<Step>, w: World) returns (cs: seq<Config>, ss: seq<Step>)
    requires Execution(cs0, ss0)
    requires var c := cs0[|ss0|]; c.enrol.EnrolIdle? && c.facts.FactsCompleting?
    ensures Execution(cs, ss) && cs[0] == cs0[0] && Idle(cs[|ss|])
    ensures var c := cs0[|ss0|]; cs[|ss|].shared == Complete(c.shared, c.facts.machine, c.facts.run, w)
  {
    cs, ss := Extend(cs0, ss0, FactsComplete(w.writeOk));
    if w.writeOk {
      cs, ss := Extend(cs, ss, FactsClear);
      cs, ss := Extend(cs, ss, FactsAnnounce(w.publishOk));
    }
  }

  lemma {:induction false} FactsIsSubSteps(c: Config, m: Id, done: bool, w: World) returns (cs: seq<Config>, ss: seq<Step>)
    requires Idle(c) && Possible(c.shared, Facts(m, done, w))
    ensures Execution(cs, ss) && cs[0] == c && Idle(cs[|ss|])
    ensures cs[|ss|].shared == Do(c.shared, Facts(m, done, w))
  {
    cs, ss := [c], [];
    cs, ss := Extend(cs, ss, FactsReceive(m, done));
    if cs[|ss|].facts.FactsQuerying? {
      cs, ss := Extend(cs, ss, FactsQuery(w.lookup));
      if w.lookup.Found? {
        cs, ss := Extend(cs, ss, FactsAdopt);
      }
    }
    if cs[|ss|].facts.FactsCompleting? {
      cs, ss := CompletionIsSubSteps(cs, ss, w);
    }
  }

  lemma {:induction false} ApiMoveIsSubSteps(c: Config, mv: Move, q: nat) returns (cs: seq<Config>, ss: seq<Step>)
    requires Idle(c) && Possible(c.shared, mv) && (mv.ApiStarted? || mv.ApiFinished?) && q !in c.api
    ensures Execution(cs, ss) && cs[0] == c && Idle(cs[|ss|])
    ensures cs[|ss|].shared == Do(c.shared, mv)
  {
    cs, ss := [c], [];
    match mv
    case ApiStarted(m, w) =>
      if w.writeOk {
        cs, ss := Extend(cs, ss, ApiStart(q, m, w.id, w.now));
        cs, ss := Extend(cs, ss, ApiStartAnnounce(q, w.publishOk));
      }
    case ApiFinished(r, status, w) =>
      cs, ss := Extend(cs, ss, ApiFinishRead(q, r, status));
      cs, ss := Extend(cs, ss, ApiFinishSave(q, w.writeOk));
      if w.writeOk {
        cs, ss := Extend(cs, ss, ApiFinishAnnounce(q, w.publishOk));
      }
  }

  /** Every handler call and API request is an interleaving in which nothing intervenes,
      so what holds of all interleavings holds of calls made one at a time. */
  lemma {:induction false} MoveIsSubSteps(c: Config, mv: Move, q: nat) returns (cs: seq<Config>, ss: seq<Step>)
    requires Idle(c) && Possible(c.shared, mv) && q !in c.api
    ensures Execution(cs, ss) && cs[0] == c && Idle(cs[|ss|])
    ensures cs[|ss|].shared == Do(c.shared, mv)
  {
    match mv
    case Enrolled(m, w) => cs, ss := EnrolledIsSubSteps(c, m, w);
    case Facts(m, done, w) => cs, ss := FactsIsSubSteps(c, m, done, w);
    case Started(n, acked) => cs, ss := Extend([c], [], DeliverStarted(n, acked));
    case Finished(n, acked) => cs, ss := Extend([c], [], DeliverFinished(n, acked));
    case _ => cs, ss := ApiMoveIsSubSteps(c, mv, q);
  }
}
