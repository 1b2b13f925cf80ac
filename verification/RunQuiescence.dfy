/** When the cache agrees with the table, with handlers called one at a time. */
module RunQuiescence {
  import opened RunProtocol
  import opened RunSafety
  import opened RunHandlers

  /** The tables `shs` follow one another from `shs[0]` by the moves `ms`. */
  ghost predicate History(shs: seq<Shared>, ms: seq<Move>) {
    && |shs| == |ms| + 1
    && forall i | 0 <= i < |ms| :: Possible(shs[i], ms[i]) && shs[i + 1] == Do(shs[i], ms[i])
  }

  /** Publishing succeeds and the API finishes no run with the status "running". */
  predicate Proper(mv: Move) {
    match mv
    case Enrolled(_, w) => w.publishOk
    case Facts(_, _, w) => w.publishOk
    case ApiStarted(_, w) => w.publishOk
    case ApiFinished(_, status, w) => w.publishOk && status != RUNNING
    case _ => true
  }

  predicate DeliversStarted(mv: Move, r: Id) {
    mv.Started? && mv.notice.run == r
  }

  predicate DeliversFinished(mv: Move, r: Id) {
    mv.Finished? && mv.notice.run == r
  }

  ghost predicate DeliveredFrom(ms: seq<Move>, k: nat, r: Id) {
    exists j | k <= j < |ms| :: DeliversFinished(ms[j], r)
  }

  /** Each run's started messages are consumed before its last finished message. */
  ghost predicate StartedFirst(ms: seq<Move>) {
    forall i, j, r | 0 <= i < j < |ms| && DeliversFinished(ms[i], r) && DeliversStarted(ms[j], r) ::
      DeliveredFrom(ms, j, r)
  }

  predicate Quiescent(sh: Shared) {
    sh.started == {} && sh.finished == {}
  }

  predicate CacheAgrees(sh: Shared) {
    forall m | m in sh.active :: RunningOf(sh.runs, m, sh.active[m])
  }

  ghost predicate SharedOwned(sh: Shared) {
    && (forall m | m in sh.active :: Owned(sh.runs, m, sh.active[m]))
    && OwnedNotices(sh.runs, sh.started)
    && OwnedNotices(sh.runs, sh.finished)
    && NIL !in sh.runs
    && forall r | r in sh.runs :: sh.runs[r].machine != NIL
  }

  lemma {:induction false} SharedOwnedStep(sh: Shared, mv: Move, sh': Shared)
    requires SharedOwned(sh) && Possible(sh, mv) && sh' == Do(sh, mv)
    ensures SharedOwned(sh')
  {
    var c := INITIAL.(shared := sh);
    assert Ownership(c);
    var cs, ss := MoveIsSubSteps(c, mv, 0);
    OwnershipAlways(cs, ss, |ss|);
    assert cs[|ss|].shared == sh';
  }

  /** Ownership of whole calls, from that of all interleavings. */
  lemma {:induction false} SharedOwnedAlways(shs: seq<Shared>, ms: seq<Move>, i: nat)
    requires History(shs, ms) && shs[0] == EMPTY && i < |shs|
    ensures SharedOwned(shs[i])
  {
    if i > 0 {
      SharedOwnedAlways(shs, ms, i - 1);
      SharedOwnedStep(shs[i - 1], ms[i - 1], shs[i]);
    }
  }

  /** The finished messages a run may still be waiting for. */
  ghost predicate PendingFinish(sh: Shared, r: Id) {
    exists n | n in sh.finished :: n.run == r
  }

  /** A message pending now and gone later was delivered in between. */
  lemma {:induction false} PendingIsDelivered(shs: seq<Shared>, ms: seq<Move>, i: nat, r: Id)
    requires History(shs, ms) && i < |shs| && PendingFinish(shs[i], r) && Quiescent(shs[|ms|])
    ensures DeliveredFrom(ms, i, r)
    decreases |ms| - i
  {
    assert i < |ms|;
    if !DeliversFinished(ms[i], r) {
      var n :| n in shs[i].finished && n.run == r;
      assert n in shs[i + 1].finished;
      PendingIsDelivered(shs, ms, i + 1, r);
    }
  }

  /** The call by which a run stops running leaves its finished message pending. */
  lemma StoppingAnnounces(sh: Shared, mv: Move, r: Id)
    requires SharedOwned(sh) && Possible(sh, mv) && Proper(mv) && IsRunning(sh.runs, r)
    requires !IsRunning(Do(sh, mv).runs, r)
    ensures PendingFinish(Do(sh, mv), r)
  {
    var n := Notice(r, sh.runs[r].machine, if mv.ApiFinished? then mv.status else SUCCESS);
    assert n in Do(sh, mv).finished;
  }

  lemma PendingOrDelivered(sh: Shared, mv: Move, r: Id)
    requires Possible(sh, mv) && PendingFinish(sh, r) && !DeliversFinished(mv, r)
    ensures PendingFinish(Do(sh, mv), r)
  {
    var n :| n in sh.finished && n.run == r;
    assert n in Do(sh, mv).finished;
  }

  lemma NewRunsRun(sh: Shared, mv: Move, r: Id)
    requires Possible(sh, mv) && r !in sh.runs && r in Do(sh, mv).runs
    ensures IsRunning(Do(sh, mv).runs, r)
  {
  }

  /** A run that is not running has its finished message pending, or had it delivered. */
  lemma {:induction false} StoppedWasAnnounced(shs: seq<Shared>, ms: seq<Move>, i: nat, r: Id)
    requires History(shs, ms) && shs[0] == EMPTY && i < |shs|
    requires forall k | 0 <= k < |ms| :: Proper(ms[k])
    requires r in shs[i].runs && !IsRunning(shs[i].runs, r)
    ensures PendingFinish(shs[i], r) || exists k | 0 <= k < i :: DeliversFinished(ms[k], r)
  {
    if i > 0 {
      var before := shs[i - 1];
      SharedOwnedAlways(shs, ms, i - 1);
      if r !in before.runs {
        NewRunsRun(before, ms[i - 1], r);
      } else if IsRunning(before.runs, r) {
        StoppingAnnounces(before, ms[i - 1], r);
      } else {
        StoppedWasAnnounced(shs, ms, i - 1, r);
        if PendingFinish(before, r) && !DeliversFinished(ms[i - 1], r) {
          PendingOrDelivered(before, ms[i - 1], r);
        }
      }
    }
  }

  /** Why a cache entry for a run that is not running is harmless: its end is yet to be delivered. */
  ghost predicate StaleIsTransient(sh: Shared, ms: seq<Move>, i: nat) {
    forall m | m in sh.active && !IsRunning(sh.runs, sh.active[m]) :: DeliveredFrom(ms, i, sh.active[m])
  }

  /** Only a started message can put a stopped run into the cache; otherwise a stale entry
      was there before, or its run has just stopped. */
  lemma HowEntriesGoStale(sh: Shared, mv: Move, m: Id)
    requires SharedOwned(sh) && Possible(sh, mv)
    requires var sh' := Do(sh, mv); m in sh'.active && !IsRunning(sh'.runs, sh'.active[m])
    ensures var r := Do(sh, mv).active[m];
            || DeliversStarted(mv, r)
            || (m in sh.active && sh.active[m] == r && !DeliversFinished(mv, r))
  {
    if mv.Finished? {
      assert Owned(sh.runs, mv.notice.machine, mv.notice.run);
    }
  }

  // Late starts -----------------------------------------------------------------------

  /** Every pending started message says "running". */
  ghost predicate StartsSayRunning(sh: Shared) {
    forall n | n in sh.started :: n.status == RUNNING
  }

  lemma {:induction false} StartsSayRunningAlways(shs: seq<Shared>, ms: seq<Move>, i: nat)
    requires History(shs, ms) && shs[0] == EMPTY && i < |shs|
    ensures StartsSayRunning(shs[i])
  {
    if i > 0 {
      StartsSayRunningAlways(shs, ms, i - 1);
      StartsSayRunningStep(shs[i - 1], ms[i - 1], shs[i]);
    }
  }

  lemma {:induction false} StartsSayRunningStep(sh: Shared, mv: Move, sh': Shared)
    requires StartsSayRunning(sh) && Possible(sh, mv) && sh' == Do(sh, mv)
    ensures StartsSayRunning(sh')
  {
  }

  /** Move `j` consumes a started message of a run that has stopped and all of whose finished
      messages have been consumed already. */
  ghost predicate LateStart(shs: seq<Shared>, ms: seq<Move>, j: nat)
    requires |shs| == |ms| + 1 && j < |ms|
  {
    ms[j].Started? && !IsRunning(shs[j].runs, ms[j].notice.run) && !DeliveredFrom(ms, j, ms[j].notice.run)
  }

  /** What replaces or removes any cache entry of `m`: a started message of `m`, or a
      post-install fact of `m` whose update succeeds. */
  predicate Displaces(mv: Move, m: Id) {
    || (mv.Started? && mv.notice.machine == m)
    || (mv.Facts? && mv.machine == m && mv.done && mv.world.writeOk)
  }

  ghost predicate DisplacedBetween(ms: seq<Move>, j: nat, i: nat, m: Id)
    requires i <= |ms|
  {
    exists k | j < k < i :: Displaces(ms[k], m)
  }

  /** Every late start is followed by something that displaces what it left in the cache. */
  ghost predicate LateStartsAreDisplaced(shs: seq<Shared>, ms: seq<Move>)
    requires |shs| == |ms| + 1
  {
    forall j | 0 <= j < |ms| && LateStart(shs, ms, j) :: DisplacedBetween(ms, j, |ms|, ms[j].notice.machine)
  }

  lemma {:induction false} StoppedStays(sh: Shared, mv: Move, sh': Shared, r: Id)
    requires Possible(sh, mv) && Proper(mv) && sh' == Do(sh, mv)
    requires r in sh.runs && !IsRunning(sh.runs, r)
    ensures r in sh'.runs && !IsRunning(sh'.runs, r)
  {
  }

  /** A move that neither displaces `m`'s entry nor is a finished message of its run leaves it. */
  lemma {:induction false} EntryStays(sh: Shared, mv: Move, sh': Shared, m: Id, r: Id)
    requires Possible(sh, mv) && sh' == Do(sh, mv) && m in sh.active && sh.active[m] == r && r != NIL
    requires !Displaces(mv, m) && !DeliversFinished(mv, r)
    ensures m in sh'.active && sh'.active[m] == r
  {
  }

  lemma {:induction false} StartIsCached(sh: Shared, mv: Move, sh': Shared)
    requires SharedOwned(sh) && StartsSayRunning(sh) && Possible(sh, mv) && mv.Started? && sh' == Do(sh, mv)
    ensures mv.notice.run in sh.runs && sh'.runs == sh.runs
    ensures mv.notice.machine in sh'.active && sh'.active[mv.notice.machine] == mv.notice.run
  {
    assert Owned(sh.runs, mv.notice.machine, mv.notice.run);
  }

  /** The cache holds `r` for `m`, and `r` has stopped. */
  predicate HoldsStopped(sh: Shared, m: Id, r: Id) {
    m in sh.active && sh.active[m] == r && r in sh.runs && !IsRunning(sh.runs, r) && r != NIL
  }

  lemma {:induction false} LateStartEnters(shs: seq<Shared>, ms: seq<Move>, j: nat)
    requires History(shs, ms) && shs[0] == EMPTY && j < |ms| && LateStart(shs, ms, j)
    ensures HoldsStopped(shs[j + 1], ms[j].notice.machine, ms[j].notice.run)
  {
    SharedOwnedAlways(shs, ms, j);
    StartsSayRunningAlways(shs, ms, j);
    StartIsCached(shs[j], ms[j], shs[j + 1]);
    assert Owned(shs[j].runs, ms[j].notice.machine, ms[j].notice.run);
  }

  lemma {:induction false} HoldsStoppedStep(sh: Shared, mv: Move, sh': Shared, m: Id, r: Id)
    requires Possible(sh, mv) && Proper(mv) && sh' == Do(sh, mv) && HoldsStopped(sh, m, r)
    requires !Displaces(mv, m) && !DeliversFinished(mv, r)
    ensures HoldsStopped(sh', m, r)
  {
    EntryStays(sh, mv, sh', m, r);
    StoppedStays(sh, mv, sh', r);
  }

  /** What a late start has put into the cache is there, and stale, until it is displaced. */
  lemma {:induction false} LateEntryStays(shs: seq<Shared>, ms: seq<Move>, j: nat, i: nat)
    requires History(shs, ms) && shs[0] == EMPTY && j < i <= |ms| && LateStart(shs, ms, j)
    requires forall k | 0 <= k < |ms| :: Proper(ms[k])
    requires !DisplacedBetween(ms, j, i, ms[j].notice.machine)
    ensures HoldsStopped(shs[i], ms[j].notice.machine, ms[j].notice.run)
  {
    if i == j + 1 {
      LateStartEnters(shs, ms, j);
    } else {
      var m, r := ms[j].notice.machine, ms[j].notice.run;
      LateEntryStays(shs, ms, j, i - 1);
      assert !Displaces(ms[i - 1], m) && !DeliversFinished(ms[i - 1], r);
      HoldsStoppedStep(shs[i - 1], ms[i - 1], shs[i], m, r);
    }
  }

  /** An entry that a move leaves behind stale was stale before it, or comes from a late start. */
  lemma {:induction false} StaleBefore(shs: seq<Shared>, ms: seq<Move>, i: nat, m: Id)
    requires History(shs, ms) && shs[0] == EMPTY && 0 < i < |shs| && Quiescent(shs[|ms|]) && Proper(ms[i - 1])
    requires m in shs[i].active && !IsRunning(shs[i].runs, shs[i].active[m]) && !DeliveredFrom(ms, i, shs[i].active[m])
    ensures var r := shs[i].active[m];
            || (LateStart(shs, ms, i - 1) && ms[i - 1].notice.run == r && ms[i - 1].notice.machine == m)
            || (m in shs[i - 1].active && shs[i - 1].active[m] == r && !IsRunning(shs[i - 1].runs, r)
                && !DeliveredFrom(ms, i - 1, r) && !Displaces(ms[i - 1], m))
  {
    var before, mv, after, r := shs[i - 1], ms[i - 1], shs[i], shs[i].active[m];
    SharedOwnedAlways(shs, ms, i - 1);
    SharedOwnedAlways(shs, ms, i);
    StartsSayRunningAlways(shs, ms, i - 1);
    HowEntriesGoStale(before, mv, m);
    if DeliversStarted(mv, r) {
      StartIsCached(before, mv, after);
      assert Owned(before.runs, mv.notice.machine, r) && Owned(after.runs, m, r);
    } else {
      if IsRunning(before.runs, r) {
        StoppingAnnounces(before, mv, r);
        PendingIsDelivered(shs, ms, i, r);
      }
      if mv.Started? {
        StartIsCached(before, mv, after);
      }
    }
  }

  /** Every stale entry whose run has no finished message to come stems from a late start
      that nothing has displaced since. */
  lemma {:induction false} StaleComesFromLateStart(shs: seq<Shared>, ms: seq<Move>, i: nat, m: Id) returns (j: nat)
    requires History(shs, ms) && shs[0] == EMPTY && i < |shs| && Quiescent(shs[|ms|])
    requires forall k | 0 <= k < |ms| :: Proper(ms[k])
    requires m in shs[i].active && !IsRunning(shs[i].runs, shs[i].active[m]) && !DeliveredFrom(ms, i, shs[i].active[m])
    ensures j < i && LateStart(shs, ms, j) && ms[j].notice.machine == m && ms[j].notice.run == shs[i].active[m]
    ensures !DisplacedBetween(ms, j, i, m)
  {
    StaleBefore(shs, ms, i, m);
    if LateStart(shs, ms, i - 1) && ms[i - 1].notice.run == shs[i].active[m] && ms[i - 1].notice.machine == m {
      j := i - 1;
    } else {
      j := StaleComesFromLateStart(shs, ms, i - 1, m);
    }
  }

  /** Exactly when the cache agrees: with no lifecycle message pending, every cached run is a
      running run of its machine if and only if every late start has been displaced. */
  lemma {:induction false} QuiescentCacheAgreesIff(shs: seq<Shared>, ms: seq<Move>)
    requires History(shs, ms) && shs[0] == EMPTY && Quiescent(shs[|ms|])
    requires forall k | 0 <= k < |ms| :: Proper(ms[k])
    ensures CacheAgrees(shs[|ms|]) <==> LateStartsAreDisplaced(shs, ms)
  {
    var end := shs[|ms|];
    SharedOwnedAlways(shs, ms, |ms|);
    if LateStartsAreDisplaced(shs, ms) {
      forall m | m in end.active ensures RunningOf(end.runs, m, end.active[m]) {
        if !IsRunning(end.runs, end.active[m]) {
          var j := StaleComesFromLateStart(shs, ms, |ms|, m);
        }
      }
    } else {
      var j :| 0 <= j < |ms| && LateStart(shs, ms, j) && !DisplacedBetween(ms, j, |ms|, ms[j].notice.machine);
      LateEntryStays(shs, ms, j, |ms|);
    }
  }

  /** When each run's started messages are consumed before its last finished one, none is late. */
  lemma {:induction false} InOrderNoneIsLate(shs: seq<Shared>, ms: seq<Move>, j: nat)
    requires History(shs, ms) && shs[0] == EMPTY && j < |ms| && Quiescent(shs[|ms|])
    requires StartedFirst(ms) && forall k | 0 <= k < |ms| :: Proper(ms[k])
    ensures !LateStart(shs, ms, j)
  {
    if LateStart(shs, ms, j) {
      var r := ms[j].notice.run;
      SharedOwnedAlways(shs, ms, j);
      assert Owned(shs[j].runs, ms[j].notice.machine, r);
      StoppedWasAnnounced(shs, ms, j, r);
      if PendingFinish(shs[j], r) {
        PendingIsDelivered(shs, ms, j, r);
      }
    }
  }

  /** Whenever no lifecycle message is pending, every cached run is a running run of its machine. */
  lemma {:induction false} QuiescentCacheAgrees(shs: seq<Shared>, ms: seq<Move>)
    requires History(shs, ms) && shs[0] == EMPTY && Quiescent(shs[|ms|])
    requires StartedFirst(ms) && forall k | 0 <= k < |ms| :: Proper(ms[k])
    ensures CacheAgrees(shs[|ms|])
  {
    forall j | 0 <= j < |ms| ensures !LateStart(shs, ms, j) {
      InOrderNoneIsLate(shs, ms, j);
    }
    QuiescentCacheAgreesIff(shs, ms);
  }

  /** And before that: a cached run that is not running has a finished message to come. */
  lemma {:induction false} StaleIsTransientAlways(shs: seq<Shared>, ms: seq<Move>, i: nat)
    requires History(shs, ms) && shs[0] == EMPTY && i < |shs| && Quiescent(shs[|ms|])
    requires StartedFirst(ms) && forall k | 0 <= k < |ms| :: Proper(ms[k])
    ensures StaleIsTransient(shs[i], ms, i)
  {
    forall m | m in shs[i].active && !IsRunning(shs[i].runs, shs[i].active[m])
      ensures DeliveredFrom(ms, i, shs[i].active[m])
    {
      if !DeliveredFrom(ms, i, shs[i].active[m]) {
        var j := StaleComesFromLateStart(shs, ms, i, m);
        InOrderNoneIsLate(shs, ms, j);
      }
    }
  }

  // Without the order -----------------------------------------------------------------

  /** A run that finishes before its started message is consumed leaves an entry behind. */
  lemma {:induction false} LateStartLeavesStaleEntry(m: Id, r: Id) returns (shs: seq<Shared>, ms: seq<Move>)
    requires m != NIL && r != NIL
    ensures History(shs, ms) && shs[0] == EMPTY && (forall k | 0 <= k < |ms| :: Proper(ms[k]))
    ensures Quiescent(shs[|ms|]) && m in shs[|ms|].active && shs[|ms|].active[m] == r
    ensures !IsRunning(shs[|ms|].runs, r)
  {
    var w := World(r, 0, Missing, true, true);
    ms := [Enrolled(m, w), ApiFinished(r, SUCCESS, w), Finished(Notice(r, m, SUCCESS), true), Started(Notice(r, m, RUNNING), true)];
    var s1 := Do(EMPTY, ms[0]);
    var s2 := Do(s1, ms[1]);
    var s3 := Do(s2, ms[2]);
    var s4 := Do(s3, ms[3]);
    shs := [EMPTY, s1, s2, s3, s4];
  }

  /** Moves that cannot take `m`'s entry for `r` away or replace it: anything but a lifecycle
      message about `m` and a post-install fact from `m`. */
  predicate LeavesEntry(mv: Move, m: Id) {
    && (mv.Started? || mv.Finished? ==> mv.notice.machine != m)
    && (mv.Facts? ==> mv.machine != m || !mv.done)
  }

  /** A stale entry suppresses every later enrolment of its machine for as long as neither
      of those arrives: the call acknowledges its message and changes nothing. */
  lemma {:induction false} EntrySuppressesEnrolment(shs: seq<Shared>, ms: seq<Move>, m: Id, r: Id, i: nat)
    requires History(shs, ms) && i < |shs|
    requires m != NIL && m in shs[0].active && shs[0].active[m] == r && r != NIL
    requires forall k | 0 <= k < |ms| :: LeavesEntry(ms[k], m)
    ensures m in shs[i].active && shs[i].active[m] == r
    ensures i < |ms| && ms[i].Enrolled? && ms[i].machine == m ==> shs[i + 1] == shs[i] && Acks(shs[i], ms[i])
  {
    if i > 0 {
      EntrySuppressesEnrolment(shs, ms, m, r, i - 1);
    }
  }

  /** A post-install fact clears it, and the next enrolment that finds no running run starts one. */
  lemma FactLetsMachineEnrolAgain(sh: Shared, m: Id, r: Id, fact: World, enrol: World)
    requires m != NIL && m in sh.active && sh.active[m] == r && r != NIL
    requires Possible(sh, Facts(m, true, fact)) && fact.writeOk
    requires var sh' := Do(sh, Facts(m, true, fact)); Possible(sh', Enrolled(m, enrol)) && enrol.lookup.Missing? && enrol.writeOk
    ensures var sh' := Do(sh, Facts(m, true, fact));
            && m !in sh'.active
            && RunningOf(Do(sh', Enrolled(m, enrol)).runs, m, enrol.id)
  {
  }
}
