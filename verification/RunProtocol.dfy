/** The run lifecycle protocol: shared tables, the handlers' sub-steps and the API's. */
module RunProtocol {
  import opened Text

  type Id = nat

  const NIL: Id := 0
  const RUNNING := "running"
  const SUCCESS := "success"

  datatype Run = Run(machine: Id, status: string, startedAt: int)

  /** A lifecycle message. */
  datatype Notice = Notice(run: Id, machine: Id, status: string)

  /** The database table, the orchestrator's cache, and the messages on the two lifecycle
      subjects of which some copy has not been acknowledged. */
  datatype Shared = Shared(runs: map<Id, Run>, active: map<Id, Id>, started: set<Notice>, finished: set<Notice>)

  const EMPTY := Shared(map[], map[], {}, {})

  predicate IsRunning(runs: map<Id, Run>, r: Id) {
    r in runs && runs[r].status == RUNNING
  }

  predicate RunningOf(runs: map<Id, Run>, m: Id, r: Id) {
    IsRunning(runs, r) && runs[r].machine == m
  }

  /** Row `a` comes no later than row `b` when ordered by start time, latest first, then by id. */
  predicate NotAfter(runs: map<Id, Run>, a: Id, b: Id)
    requires a in runs && b in runs
  {
    runs[a].startedAt > runs[b].startedAt || (runs[a].startedAt == runs[b].startedAt && a <= b)
  }

  datatype Lookup = Found(run: Id) | Missing | Failed

  /** What the query for the latest running run of `m` may answer. */
  ghost predicate Answers(runs: map<Id, Run>, m: Id, l: Lookup) {
    match l
    case Found(r) => RunningOf(runs, m, r) && forall s | RunningOf(runs, m, s) :: NotAfter(runs, r, s)
    case Missing => forall s :: !RunningOf(runs, m, s)
    case Failed => true
  }

  // The cache operations, each atomic under its lock ---------------------------------

  function SetActive(sh: Shared, m: Id, r: Id): Shared {
    sh.(active := sh.active[m := r])
  }

  function ClearActive(sh: Shared, m: Id, r: Id): Shared {
    if m in sh.active && sh.active[m] == r then sh.(active := sh.active - {m}) else sh
  }

  function SetStatus(runs: map<Id, Run>, r: Id, status: string): map<Id, Run> {
    if r in runs then runs[r := runs[r].(status := status)] else runs
  }

  // Sub-steps -----------------------------------------------------------------------
  //
  // A handler is a worker with a program counter.  Between two of its sub-steps any
  // other worker may take any number of its own; one subscription has one worker.

  datatype EnrolPc =
    | EnrolIdle
    | EnrolQuerying(machine: Id)
    | EnrolAdopting(machine: Id, run: Id)
    | EnrolCreating(machine: Id)
    | EnrolCaching(machine: Id, run: Id)
    | EnrolAnnouncing(machine: Id, run: Id)

  datatype FactsPc =
    | FactsIdle
    | FactsQuerying(machine: Id)
    | FactsAdopting(machine: Id, run: Id)
    | FactsCompleting(machine: Id, run: Id)
    | FactsClearing(machine: Id, run: Id)
    | FactsAnnouncing(machine: Id, run: Id)

  /** An API request between two of its sub-steps; `row` was read and is to be saved whole. */
  datatype ApiPc =
    | StartAnnouncing(notice: Notice)
    | FinishSaving(id: Id, row: Run)
    | FinishAnnouncing(notice: Notice)

  /** `api` holds the requests under way, any number of them.  `created`, `exited` and
      `reentered` are history: the machine of every run created, and of every transition of
      a run out of the running status and back into it. */
  datatype Config = Config(
    shared: Shared,
    enrol: EnrolPc,
    facts: FactsPc,
    api: map<nat, ApiPc>,
    created: multiset<Id>,
    exited: multiset<Id>,
    reentered: multiset<Id>)

  const INITIAL := Config(EMPTY, EnrolIdle, FactsIdle, map[], multiset{}, multiset{}, multiset{})

  datatype Step =
    | EnrolReceive(machine: Id)
    | EnrolQuery(lookup: Lookup)
    | EnrolAdopt
    | EnrolCreate(id: Id, now: int, ok: bool)
    | EnrolCache
    | EnrolAnnounce(ok: bool)
    | FactsReceive(machine: Id, done: bool)
    | FactsQuery(lookup: Lookup)
    | FactsAdopt
    | FactsComplete(ok: bool)
    | FactsClear
    | FactsAnnounce(ok: bool)
    | DeliverStarted(notice: Notice, acked: bool)
    | DeliverFinished(notice: Notice, acked: bool)
    | ApiStart(request: nat, machine: Id, id: Id, now: int)
    | ApiStartAnnounce(request: nat, ok: bool)
    | ApiFinishRead(request: nat, id: Id, status: string)
    | ApiFinishSave(request: nat, ok: bool)
    | ApiFinishAnnounce(request: nat, ok: bool)

  /** A new identifier is a fresh UUID: not the nil one and not in use. */
  predicate FreshId(runs: map<Id, Run>, r: Id) {
    r != NIL && r !in runs
  }

  ghost predicate StepEnabled(c: Config, s: Step) {
    match s
    case EnrolReceive(_) => c.enrol.EnrolIdle?
    case EnrolQuery(l) => c.enrol.EnrolQuerying? && Answers(c.shared.runs, c.enrol.machine, l)
    case EnrolAdopt => c.enrol.EnrolAdopting?
    case EnrolCreate(r, _, _) => c.enrol.EnrolCreating? && FreshId(c.shared.runs, r)
    case EnrolCache => c.enrol.EnrolCaching?
    case EnrolAnnounce(_) => c.enrol.EnrolAnnouncing?
    case FactsReceive(_, _) => c.facts.FactsIdle?
    case FactsQuery(l) => c.facts.FactsQuerying? && Answers(c.shared.runs, c.facts.machine, l)
    case FactsAdopt => c.facts.FactsAdopting?
    case FactsComplete(_) => c.facts.FactsCompleting?
    case FactsClear => c.facts.FactsClearing?
    case FactsAnnounce(_) => c.facts.FactsAnnouncing?
    case DeliverStarted(n, _) => n in c.shared.started
    case DeliverFinished(n, _) => n in c.shared.finished
    case ApiStart(q, m, r, _) => q !in c.api && m != NIL && FreshId(c.shared.runs, r)
    case ApiStartAnnounce(q, _) => q in c.api && c.api[q].StartAnnouncing?
    case ApiFinishRead(q, r, status) => q !in c.api && r in c.shared.runs && status != ""
    case ApiFinishSave(q, _) => q in c.api && c.api[q].FinishSaving?
    case ApiFinishAnnounce(q, _) => q in c.api && c.api[q].FinishAnnouncing?
  }

  /** Rewrite a row, recording whether its run stops running by it or runs again. */
  function WriteRow(c: Config, r: Id, row: Run): Config {
    var ran, runs := IsRunning(c.shared.runs, r), row.status == RUNNING;
    c.(shared := c.shared.(runs := c.shared.runs[r := row]),
       exited := c.exited + if ran && !runs then multiset{c.shared.runs[r].machine} else multiset{},
       reentered := c.reentered + if !ran && runs then multiset{row.machine} else multiset{})
  }

  function CreateRow(c: Config, r: Id, m: Id, now: int): Config {
    c.(shared := c.shared.(runs := c.shared.runs[r := Run(m, RUNNING, now)]), created := c.created + multiset{m})
  }

  // `acked` says that the last outstanding copy of the message was acknowledged; without
  // it the message stays and will be delivered again.

  function OnStarted(sh: Shared, n: Notice, acked: bool): Shared {
    var sh' := if acked then sh.(started := sh.started - {n}) else sh;
    if n.machine == NIL || n.run == NIL then sh'
    else if EqualFold(n.status, RUNNING) then SetActive(sh', n.machine, n.run)
    else sh'
  }

  function OnFinished(sh: Shared, n: Notice, acked: bool): Shared {
    var sh' := if acked then sh.(finished := sh.finished - {n}) else sh;
    if n.machine == NIL || n.run == NIL then sh' else ClearActive(sh', n.machine, n.run)
  }

  function PublishStarted(sh: Shared, n: Notice, ok: bool): Shared {
    if ok then sh.(started := sh.started + {n}) else sh
  }

  function PublishFinished(sh: Shared, n: Notice, ok: bool): Shared {
    if ok then sh.(finished := sh.finished + {n}) else sh
  }

  /** An idle enrolment worker takes a message: it is done at once when the machine is
      missing from it or already has a cached run. */
  function EnrolBegin(sh: Shared, m: Id): EnrolPc {
    if m == NIL || (m in sh.active && sh.active[m] != NIL) then EnrolIdle else EnrolQuerying(m)
  }

  function EnrolLookedUp(m: Id, l: Lookup): EnrolPc {
    match l
    case Found(r) => EnrolAdopting(m, r)
    case Missing => EnrolCreating(m)
    case Failed => EnrolIdle
  }

  function FactsBegin(sh: Shared, m: Id, done: bool): FactsPc {
    if m == NIL || !done then FactsIdle
    else if m !in sh.active then FactsQuerying(m)
    else if sh.active[m] == NIL then FactsIdle
    else FactsCompleting(m, sh.active[m])
  }

  function FactsLookedUp(m: Id, l: Lookup): FactsPc {
    match l
    case Found(r) => FactsAdopting(m, r)
    case _ => FactsIdle
  }

  function StepTo(c: Config, s: Step): Config
    requires StepEnabled(c, s)
  {
    match s
    case EnrolReceive(m) => c.(enrol := EnrolBegin(c.shared, m))
    case EnrolQuery(l) => c.(enrol := EnrolLookedUp(c.enrol.machine, l))
    case EnrolAdopt => c.(shared := SetActive(c.shared, c.enrol.machine, c.enrol.run), enrol := EnrolIdle)
    case EnrolCreate(r, now, ok) =>
      if ok then CreateRow(c, r, c.enrol.machine, now).(enrol := EnrolCaching(c.enrol.machine, r))
      else c.(enrol := EnrolIdle)
    case EnrolCache =>
      c.(shared := SetActive(c.shared, c.enrol.machine, c.enrol.run), enrol := EnrolAnnouncing(c.enrol.machine, c.enrol.run))
    case EnrolAnnounce(ok) =>
      c.(shared := PublishStarted(c.shared, Notice(c.enrol.run, c.enrol.machine, RUNNING), ok), enrol := EnrolIdle)
    case FactsReceive(m, done) => c.(facts := FactsBegin(c.shared, m, done))
    case FactsQuery(l) => c.(facts := FactsLookedUp(c.facts.machine, l))
    case FactsAdopt =>
      c.(shared := SetActive(c.shared, c.facts.machine, c.facts.run),
         facts := if c.facts.run == NIL then FactsIdle else FactsCompleting(c.facts.machine, c.facts.run))
    case FactsComplete(ok) =>
      if !ok then c.(facts := FactsIdle)
      else
        var r := c.facts.run;
        var c' := if r in c.shared.runs then WriteRow(c, r, c.shared.runs[r].(status := SUCCESS)) else c;
        c'.(facts := FactsClearing(c.facts.machine, r))
    case FactsClear =>
      c.(shared := ClearActive(c.shared, c.facts.machine, c.facts.run), facts := FactsAnnouncing(c.facts.machine, c.facts.run))
    case FactsAnnounce(ok) =>
      c.(shared := PublishFinished(c.shared, Notice(c.facts.run, c.facts.machine, SUCCESS), ok), facts := FactsIdle)
    case DeliverStarted(n, acked) => c.(shared := OnStarted(c.shared, n, acked))
    case DeliverFinished(n, acked) => c.(shared := OnFinished(c.shared, n, acked))
    case ApiStart(q, m, r, now) =>
      CreateRow(c, r, m, now).(api := c.api[q := StartAnnouncing(Notice(r, m, RUNNING))])
    case ApiStartAnnounce(q, ok) =>
      c.(shared := PublishStarted(c.shared, c.api[q].notice, ok), api := c.api - {q})
    case ApiFinishRead(q, r, status) =>
      c.(api := c.api[q := FinishSaving(r, c.shared.runs[r].(status := status))])
    case ApiFinishSave(q, ok) =>
      if !ok then c.(api := c.api - {q})
      else
        var r, row := c.api[q].id, c.api[q].row;
        WriteRow(c, r, row).(api := c.api[q := FinishAnnouncing(Notice(r, row.machine, row.status))])
    case ApiFinishAnnounce(q, ok) =>
      c.(shared := PublishFinished(c.shared, c.api[q].notice, ok), api := c.api - {q})
  }

  /** The configurations `cs` follow one another by the steps `ss`. */
  ghost predicate Execution(cs: seq<Config>, ss: seq<Step>) {
    && |cs| == |ss| + 1
    && forall i | 0 <= i < |ss| :: StepEnabled(cs[i], ss[i]) && cs[i + 1] == StepTo(cs[i], ss[i])
  }

  lemma {:induction false} Extend(cs: seq<Config>, ss: seq<Step>, s: Step) returns (cs': seq<Config>, ss': seq<Step>)
    requires Execution(cs, ss) && StepEnabled(cs[|ss|], s)
    ensures Execution(cs', ss') && cs'[0] == cs[0] && cs'[|ss'|] == StepTo(cs[|ss|], s)
  {
    cs', ss' := cs + [StepTo(cs[|ss|], s)], ss + [s];
    forall i | 0 <= i < |ss'| ensures StepEnabled(cs'[i], ss'[i]) && cs'[i + 1] == StepTo(cs'[i], ss'[i]) {
      if i < |ss| {
        assert cs'[i] == cs[i] && cs'[i + 1] == cs[i + 1];
      }
    }
  }
}
