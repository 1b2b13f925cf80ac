/** What holds over every run of the lease pool. */
module LeaseRuns {
  import opened LeasePool

  /** One call of the server, between its first clock read and its successor's. */
  datatype Move = Move(from: int, to: int, event: Event)

  function Fresh(start: nat, end: nat): Pool { Pool(start, end, start, map[]) }

  function After(p: Pool, leaseTime: int, ms: seq<Move>): Pool {
    if ms == [] then p
    else Apply(After(p, leaseTime, ms[..|ms| - 1]), leaseTime, ms[|ms| - 1].event)
  }

  /** The calls `ms` can happen one after the other from `p` as time goes on. */
  ghost predicate Legal(p: Pool, leaseTime: int, ms: seq<Move>) {
    ms == [] ||
    var n := |ms| - 1;
    && Legal(p, leaseTime, ms[..n])
    && ms[n].from <= ms[n].to
    && (n > 0 ==> ms[n - 1].to <= ms[n].from)
    && Enabled(After(p, leaseTime, ms[..n]), ms[n].from, ms[n].to, ms[n].event)
  }

  lemma {:induction false} LegalPrefix(p: Pool, leaseTime: int, ms: seq<Move>, k: nat)
    requires Legal(p, leaseTime, ms) && k <= |ms|
    ensures Legal(p, leaseTime, ms[..k])
    decreases |ms|
  {
    if k < |ms| {
      assert ms[..|ms| - 1][..k] == ms[..k];
      LegalPrefix(p, leaseTime, ms[..|ms| - 1], k);
    } else {
      assert ms[..k] == ms;
    }
  }

  lemma LegalAt(p: Pool, leaseTime: int, ms: seq<Move>, i: nat)
    requires Legal(p, leaseTime, ms) && i < |ms|
    ensures Enabled(After(p, leaseTime, ms[..i]), ms[i].from, ms[i].to, ms[i].event)
    ensures After(p, leaseTime, ms[..i + 1]) == Apply(After(p, leaseTime, ms[..i]), leaseTime, ms[i].event)
  {
    LegalPrefix(p, leaseTime, ms, i + 1);
    assert ms[..i + 1][..i] == ms[..i];
  }

  lemma {:induction false} LegalExtends(p: Pool, leaseTime: int, ms: seq<Move>, mv: Move)
    ensures After(p, leaseTime, ms + [mv]) == Apply(After(p, leaseTime, ms), leaseTime, mv.event)
    ensures Legal(p, leaseTime, ms + [mv]) <==>
            && Legal(p, leaseTime, ms)
            && mv.from <= mv.to
            && (ms != [] ==> ms[|ms| - 1].to <= mv.from)
            && Enabled(After(p, leaseTime, ms), mv.from, mv.to, mv.event)
  {
    assert (ms + [mv])[..|ms|] == ms;
  }

  // Lease safety ------------------------------------------------------------------

  /** No two MACs hold unexpired leases on one address at `t`. */
  ghost predicate NoDoubleLease(p: Pool, t: int) {
    forall m, n | m in p.leases && n in p.leases && m != n && p.leases[m].address == p.leases[n].address ::
      p.leases[m].expiresAt <= t || p.leases[n].expiresAt <= t
  }

  ghost predicate InRange(p: Pool) {
    forall m | m in p.leases :: p.start <= p.leases[m].address <= p.end
  }

  /** The cursor is inside the range or just past it. */
  ghost predicate CursorInRange(p: Pool) {
    p.start <= p.next <= p.end + 1
  }

  lemma SafetyStep(p: Pool, leaseTime: int, mv: Move, t: int)
    requires t <= mv.from <= mv.to && NoDoubleLease(p, t) && Enabled(p, mv.from, mv.to, mv.event)
    ensures NoDoubleLease(Apply(p, leaseTime, mv.event), mv.to)
    ensures mv.event.Granted? ==> NoDoubleLease(Apply(p, leaseTime, mv.event), mv.event.stamped)
  {
    var q := Apply(p, leaseTime, mv.event);
    if mv.event.Granted? {
      forall m | m in p.leases && m != mv.event.mac && p.leases[m].address == mv.event.address
        ensures p.leases[m].expiresAt <= mv.event.stamped
      {
        assert !Taken(p, mv.event.address, mv.event.stamped);
      }
    }
  }

  /** Lease safety from any state that is safe, not only from a fresh server: the
      clock may move between any two reads of any call. */
  lemma {:induction false} LeaseSafety(p: Pool, leaseTime: int, ms: seq<Move>, t: int)
    requires Legal(p, leaseTime, ms) && NoDoubleLease(p, t) && (ms != [] ==> t <= ms[0].from)
    ensures NoDoubleLease(After(p, leaseTime, ms), if ms == [] then t else ms[|ms| - 1].to)
  {
    if ms != [] {
      var n := |ms| - 1;
      LeaseSafety(p, leaseTime, ms[..n], t);
      SafetyStep(After(p, leaseTime, ms[..n]), leaseTime, ms[n], if n == 0 then t else ms[n - 1].to);
    }
  }

  /** Every lease stays inside the configured range, from any state with the cursor in range. */
  lemma {:induction false} RangeInvariant(p: Pool, leaseTime: int, ms: seq<Move>)
    requires Legal(p, leaseTime, ms)
    requires WellFormed(p) && p.end < MAX_ADDRESS && InRange(p) && CursorInRange(p)
    ensures var q := After(p, leaseTime, ms);
            WellFormed(q) && q.start == p.start && q.end == p.end && InRange(q) && CursorInRange(q)
  {
    if ms != [] {
      RangeInvariant(p, leaseTime, ms[..|ms| - 1]);
    }
  }

  /** The MACs with an unexpired lease. */
  ghost function Holders(p: Pool, t: int): set<string> {
    set m | m in p.leases && p.leases[m].expiresAt > t
  }

  function Interval(lo: nat, hi: nat): (r: set<nat>)
    ensures forall a: nat :: a in r <==> lo <= a < hi
    ensures |r| == if lo <= hi then hi - lo else 0
    decreases hi - lo
  {
    if lo >= hi then {} else {lo} + Interval(lo + 1, hi)
  }

  lemma {:induction false} Pigeonhole(leases: map<string, Lease>, macs: set<string>, room: set<nat>)
    requires forall m | m in macs :: m in leases && leases[m].address in room
    requires forall m, n | m in macs && n in macs && m != n :: leases[m].address != leases[n].address
    ensures |macs| <= |room|
    decreases |macs|
  {
    if macs != {} {
      var m :| m in macs;
      Pigeonhole(leases, macs - {m}, room - {leases[m].address});
    }
  }

  /** Unexpired leases never outnumber the addresses of the range. */
  lemma Capacity(p: Pool, t: int)
    requires p.start <= p.end && NoDoubleLease(p, t) && InRange(p)
    ensures |Holders(p, t)| <= p.end - p.start + 1
  {
    Pigeonhole(p.leases, Holders(p, t), Interval(p.start, p.end + 1));
  }

  /** As many MACs hold leases as there are addresses in `lo..hi` when each of them is taken. */
  lemma {:induction false} TakenNeedHolders(p: Pool, t: int, room: set<nat>, macs: set<string>)
    requires forall m | m in macs :: m in p.leases
    requires forall a | a in room :: exists m | m in macs :: p.leases[m].address == a
    ensures |room| <= |macs|
    decreases |room|
  {
    if room != {} {
      var a :| a in room;
      var m :| m in macs && p.leases[m].address == a;
      forall b | b in room - {a} ensures exists n | n in macs - {m} :: p.leases[n].address == b {
        var n :| n in macs && p.leases[n].address == b;
        assert n in macs - {m};
      }
      TakenNeedHolders(p, t, room - {a}, macs - {m});
    }
  }

  lemma {:induction false} TakenNeedHoldersBetween(p: Pool, t: int, lo: nat, hi: nat)
    requires lo <= hi && TakenBetween(p, lo, hi, t)
    ensures hi - lo <= |Holders(p, t)|
  {
    forall a | a in Interval(lo, hi) ensures exists m | m in Holders(p, t) :: p.leases[m].address == a {
      assert Taken(p, a, t);
      var m :| m in p.leases && p.leases[m].address == a && p.leases[m].expiresAt > t;
      assert m in Holders(p, t);
    }
    TakenNeedHolders(p, t, Interval(lo, hi), Holders(p, t));
  }

  lemma {:induction false} HoldersAreLeases(p: Pool, t: int)
    ensures |Holders(p, t)| <= |p.leases|
  {
    var rest := p.leases.Keys - Holders(p, t);
    assert p.leases.Keys == Holders(p, t) + rest;
  }

  /** By pigeonhole: with fewer leases than there are 32-bit addresses, every call has an
      outcome at once, on any range, however the range ends. */
  lemma {:induction false} FewLeasesAlwaysReturn(p: Pool, mac: string, from: int, to: int)
    requires |p.leases| <= MAX_ADDRESS
    ensures Returns(p, mac, from, to)
  {
    if TakenBetween(p, 0, MAX_ADDRESS + 1, to) {
      TakenNeedHoldersBetween(p, to, 0, MAX_ADDRESS + 1);
      HoldersAreLeases(p, to);
    }
  }

  /** When everything is taken and nothing is doubly leased, exactly as many MACs hold
      unexpired leases as the range has addresses; and the other way round. */
  lemma {:induction false} FullIffAllTaken(p: Pool, t: int)
    requires p.start <= p.end && NoDoubleLease(p, t) && InRange(p)
    ensures |Holders(p, t)| == p.end - p.start + 1 <==> TakenBetween(p, p.start, p.end + 1, t)
  {
    Capacity(p, t);
    if TakenBetween(p, p.start, p.end + 1, t) {
      TakenNeedHoldersBetween(p, t, p.start, p.end + 1);
    } else {
      var a: nat :| p.start <= a < p.end + 1 && !Taken(p, a, t);
      Pigeonhole(p.leases, Holders(p, t), Interval(p.start, p.end + 1) - {a});
    }
  }

  /** While the cursor is in the range, a refusal means that the pool was full at the call's
      first clock read, one holder for every address and none of them this MAC; and if it is
      full throughout the call, refusal is all that a MAC without a lease can get. */
  lemma {:induction false} RefusalMeansFull(p: Pool, from: int, to: int, mac: string)
    requires WellFormed(p) && p.start <= p.next <= p.end < MAX_ADDRESS && from <= to
    requires NoDoubleLease(p, from) && InRange(p) && !Live(p, mac, from)
    ensures Enabled(p, from, to, Refused(mac)) <==> |Holders(p, from)| == p.end - p.start + 1
    ensures |Holders(p, to)| == p.end - p.start + 1 ==>
              forall e | IsAssign(e, mac) && Enabled(p, from, to, e) :: e == Refused(mac)
  {
    FullIffAllTaken(p, from);
    FullIffAllTaken(p, to);
    if |Holders(p, to)| == p.end - p.start + 1 {
      forall e | IsAssign(e, mac) && Enabled(p, from, to, e) ensures e == Refused(mac) {
        if e.Granted? {
          assert Taken(p, e.address, to);
          TakenEarlier(p, e.address, e.stamped, to);
        }
      }
    }
  }

  /** Capacity over whole runs of a server started on any range. */
  lemma CapacityAlongRuns(start: nat, end: nat, leaseTime: int, ms: seq<Move>)
    requires start <= end < MAX_ADDRESS && ms != [] && Legal(Fresh(start, end), leaseTime, ms)
    ensures |Holders(After(Fresh(start, end), leaseTime, ms), ms[|ms| - 1].to)| <= end - start + 1
  {
    RangeInvariant(Fresh(start, end), leaseTime, ms);
    LeaseSafety(Fresh(start, end), leaseTime, ms, ms[0].from);
    Capacity(After(Fresh(start, end), leaseTime, ms), ms[|ms| - 1].to);
  }

  // Offer and acknowledgement -----------------------------------------------------

  /** `mac` does not release, and starts every call of its own before `expiry`. */
  ghost predicate KeepsLease(ms: seq<Move>, mac: string, expiry: int) {
    forall i | 0 <= i < |ms| && ms[i].event.mac == mac :: !ms[i].event.Released? && ms[i].from < expiry
  }

  /** Until release or expiry, every DISCOVER or REQUEST of a lease holder is answered
      with the same address and leaves its expiry alone, whatever other MACs do
      (sections 3.1 and 4.3.1 of RFC 2131). */
  lemma {:induction false} LeaseIsStable(p: Pool, leaseTime: int, ms: seq<Move>, mac: string)
    requires Legal(p, leaseTime, ms)
    requires mac in p.leases && KeepsLease(ms, mac, p.leases[mac].expiresAt)
    ensures var q := After(p, leaseTime, ms); mac in q.leases && q.leases[mac] == p.leases[mac]
    ensures forall i | 0 <= i < |ms| && ms[i].event.mac == mac :: ms[i].event == Renewed(mac, p.leases[mac].address)
  {
    if ms != [] {
      var n := |ms| - 1;
      var q := After(p, leaseTime, ms[..n]);
      assert KeepsLease(ms[..n], mac, p.leases[mac].expiresAt);
      LeaseIsStable(p, leaseTime, ms[..n], mac);
      forall i | 0 <= i < |ms| && ms[i].event.mac == mac
        ensures ms[i].event == Renewed(mac, p.leases[mac].address)
      {
        if i < n {
          assert ms[..n][i] == ms[i];
        } else {
          assert Live(q, mac, ms[n].from);
        }
      }
    }
  }

  // The bump allocator ------------------------------------------------------------

  /** The addresses handed out as new leases, in order. */
  function Issued(ms: seq<Move>): seq<nat> {
    if ms == [] then []
    else
      var e := ms[|ms| - 1].event;
      Issued(ms[..|ms| - 1]) + if e.Granted? then [e.address] else []
  }

  /** Every lease lies below the cursor: nothing at or above it was ever handed out. */
  ghost predicate BelowCursor(p: Pool) {
    forall m | m in p.leases :: p.start <= p.leases[m].address < p.next
  }

  /** In such a state a new lease is the cursor's own address, found at the first
      look: the scan passes nothing and never wraps around. */
  lemma GrantIsTheCursor(p: Pool, from: int, to: int, e: Event)
    requires BelowCursor(p) && e.Granted? && Enabled(p, from, to, e)
    ensures e.address == p.next <= p.end && FirstScanReaches(p, e.address, from)
    ensures !SecondScanReaches(p, e.address, from) && !WrappedScanReaches(p, e.address, from)
  {
    assert !Taken(p, p.next, from);
    if p.next <= p.end {
      assert p.next <= p.next < p.end + 1;
    }
  }

  /** A server on `start..end` hands out start, start + 1, ... and nothing twice. */
  lemma {:induction false} RefinesBumpCounter(start: nat, end: nat, leaseTime: int, ms: seq<Move>)
    requires start <= end < MAX_ADDRESS && Legal(Fresh(start, end), leaseTime, ms)
    ensures var p := After(Fresh(start, end), leaseTime, ms);
            && p.start == start && p.end == end
            && p.next == start + |Issued(ms)| <= end + 1
            && BelowCursor(p)
    ensures Issued(ms) == seq(|Issued(ms)|, i requires 0 <= i => start + i)
  {
    if ms != [] {
      var n := |ms| - 1;
      RefinesBumpCounter(start, end, leaseTime, ms[..n]);
      var p := After(Fresh(start, end), leaseTime, ms[..n]);
      if ms[n].event.Granted? {
        GrantIsTheCursor(p, ms[n].from, ms[n].to, ms[n].event);
      }
    }
  }

  lemma {:induction false} IssuedSplits(ms: seq<Move>, k: nat)
    requires k <= |ms|
    ensures |Issued(ms[..k])| <= |Issued(ms)| && Issued(ms)[..|Issued(ms[..k])|] == Issued(ms[..k])
    decreases |ms|
  {
    if k < |ms| {
      assert ms[..|ms| - 1][..k] == ms[..k];
      IssuedSplits(ms[..|ms| - 1], k);
    } else {
      assert ms[..k] == ms;
    }
  }

  /** No address is ever issued twice, released or not, expired or not. */
  lemma NeverIssuedTwice(start: nat, end: nat, leaseTime: int, ms: seq<Move>, i: nat, j: nat)
    requires start <= end < MAX_ADDRESS && Legal(Fresh(start, end), leaseTime, ms)
    requires i < j < |ms| && ms[i].event.Granted? && ms[j].event.Granted?
    ensures ms[i].event.address < ms[j].event.address
  {
    var server := Fresh(start, end);
    LegalPrefix(server, leaseTime, ms, i);
    RefinesBumpCounter(start, end, leaseTime, ms[..i]);
    LegalAt(server, leaseTime, ms, i);
    GrantIsTheCursor(After(server, leaseTime, ms[..i]), ms[i].from, ms[i].to, ms[i].event);
    LegalPrefix(server, leaseTime, ms, j);
    RefinesBumpCounter(start, end, leaseTime, ms[..j]);
    LegalAt(server, leaseTime, ms, j);
    GrantIsTheCursor(After(server, leaseTime, ms[..j]), ms[j].from, ms[j].to, ms[j].event);
    assert ms[..j][..i + 1] == ms[..i + 1] && ms[..i + 1][..i] == ms[..i];
    IssuedSplits(ms[..j], i + 1);
  }

  /** The wrap-around scan is unreachable from a fresh server. */
  lemma SecondScanIsDead(start: nat, end: nat, leaseTime: int, ms: seq<Move>, i: nat)
    requires start <= end < MAX_ADDRESS && Legal(Fresh(start, end), leaseTime, ms)
    requires i < |ms|
    ensures var p := After(Fresh(start, end), leaseTime, ms[..i]);
            !(p.next <= p.end && TakenBetween(p, p.next, p.end + 1, ms[i].from))
  {
    var p := After(Fresh(start, end), leaseTime, ms[..i]);
    LegalPrefix(Fresh(start, end), leaseTime, ms, i);
    RefinesBumpCounter(start, end, leaseTime, ms[..i]);
    if p.next <= p.end {
      assert p.next <= p.next < p.end + 1 && !Taken(p, p.next, ms[i].from);
    }
  }

  /** A MAC without a live lease is refused exactly when as many leases have ever been
      issued as the range has addresses, however many of them were given back. */
  lemma RefusedIffAllEverIssued(start: nat, end: nat, leaseTime: int, ms: seq<Move>, i: nat)
    requires start <= end < MAX_ADDRESS && Legal(Fresh(start, end), leaseTime, ms) && i < |ms|
    requires !ms[i].event.Released?
    requires !Live(After(Fresh(start, end), leaseTime, ms[..i]), ms[i].event.mac, ms[i].from)
    ensures ms[i].event.Refused? <==> |Issued(ms[..i])| == end - start + 1
  {
    LegalPrefix(Fresh(start, end), leaseTime, ms, i);
    LegalAt(Fresh(start, end), leaseTime, ms, i);
    RefinesBumpCounter(start, end, leaseTime, ms[..i]);
    SecondScanIsDead(start, end, leaseTime, ms, i);
  }

  /** Once the last address has been issued nobody without a live lease gets one again. */
  lemma RefusedForeverAfterEnd(start: nat, end: nat, leaseTime: int, ms: seq<Move>, i: nat, j: nat)
    requires start <= end < MAX_ADDRESS && Legal(Fresh(start, end), leaseTime, ms)
    requires i < j < |ms| && ms[i].event.Granted? && ms[i].event.address == end
    requires !ms[j].event.Released?
    requires !Live(After(Fresh(start, end), leaseTime, ms[..j]), ms[j].event.mac, ms[j].from)
    ensures ms[j].event == Refused(ms[j].event.mac)
  {
    if ms[j].event.Granted? {
      NeverIssuedTwice(start, end, leaseTime, ms, i, j);
    }
    LegalAt(Fresh(start, end), leaseTime, ms, j);
    if ms[j].event.Granted? {
      var p := After(Fresh(start, end), leaseTime, ms[..j]);
      LegalPrefix(Fresh(start, end), leaseTime, ms, j);
      RefinesBumpCounter(start, end, leaseTime, ms[..j]);
      GrantIsTheCursor(p, ms[j].from, ms[j].to, ms[j].event);
    }
  }

  // Two limits of the allocator -----------------------------------------------------

  ghost predicate AllAtZero(ms: seq<Move>) {
    forall i | 0 <= i < |ms| :: ms[i].from == ms[i].to == 0
  }

  /** One client takes the cursor's address and gives it back at the same instant. */
  lemma {:induction false} ChurnRound(p: Pool, leaseTime: int, ms: seq<Move>) returns (round: seq<Move>)
    requires Legal(p, leaseTime, ms) && AllAtZero(ms)
    requires var q := After(p, leaseTime, ms); q.leases == map[] && q.next <= q.end
    ensures Legal(p, leaseTime, round) && AllAtZero(round)
    ensures var q := After(p, leaseTime, ms); After(p, leaseTime, round) == q.(next := Increment(q.next))
  {
    var q := After(p, leaseTime, ms);
    var grant, release := Move(0, 0, Granted("m", q.next, 0)), Move(0, 0, Released("m"));
    assert FirstScanReaches(q, q.next, 0) && Enabled(q, 0, 0, grant.event);
    LegalExtends(p, leaseTime, ms, grant);
    LegalExtends(p, leaseTime, ms + [grant], release);
    round := ms + [grant] + [release];
  }

  /** `k` such rounds: the pool is empty again but the cursor has moved on by `k`. */
  lemma {:induction false} Churn(start: nat, end: nat, leaseTime: int, k: nat) returns (ms: seq<Move>)
    requires start <= end <= MAX_ADDRESS && k <= end - start + 1
    ensures Legal(Fresh(start, end), leaseTime, ms) && AllAtZero(ms)
    ensures After(Fresh(start, end), leaseTime, ms) ==
            Pool(start, end, if start + k == MAX_ADDRESS + 1 then 0 else start + k, map[])
  {
    if k == 0 {
      ms := [];
    } else {
      var shorter := Churn(start, end, leaseTime, k - 1);
      ms := ChurnRound(Fresh(start, end), leaseTime, shorter);
    }
  }

  /** "Refused only when the pool is full" fails on every range: a server can come to
      a state that holds no lease at all and refuses any given MAC. */
  lemma EmptyPoolCanRefuse(start: nat, end: nat, leaseTime: int, mac: string) returns (ms: seq<Move>)
    requires start <= end < MAX_ADDRESS
    ensures ms != [] && ms[|ms| - 1].event == Refused(mac)
    ensures Legal(Fresh(start, end), leaseTime, ms)
    ensures After(Fresh(start, end), leaseTime, ms).leases == map[]
  {
    var churn := Churn(start, end, leaseTime, end - start + 1);
    LegalExtends(Fresh(start, end), leaseTime, churn, Move(0, 0, Refused(mac)));
    ms := churn + [Move(0, 0, Refused(mac))];
  }

  ghost predicate AlwaysInRange(start: nat, end: nat, leaseTime: int) {
    forall ms :: Legal(Fresh(start, end), leaseTime, ms) ==> InRange(After(Fresh(start, end), leaseTime, ms))
  }

  lemma {:induction false} AddressesAre32Bit(p: Pool, leaseTime: int, ms: seq<Move>)
    requires WellFormed(p) && Legal(p, leaseTime, ms)
    ensures WellFormed(After(p, leaseTime, ms)) && After(p, leaseTime, ms).start == p.start && After(p, leaseTime, ms).end == p.end
  {
    if ms != [] {
      AddressesAre32Bit(p, leaseTime, ms[..|ms| - 1]);
    }
  }

  lemma {:induction false} StrayRun(start: nat, leaseTime: int) returns (ms: seq<Move>)
    requires 0 < start <= MAX_ADDRESS
    ensures Legal(Fresh(start, MAX_ADDRESS), leaseTime, ms)
    ensures !InRange(After(Fresh(start, MAX_ADDRESS), leaseTime, ms))
  {
    var server := Fresh(start, MAX_ADDRESS);
    var churn := Churn(start, MAX_ADDRESS, leaseTime, MAX_ADDRESS - start + 1);
    assert After(server, leaseTime, churn).next == 0;
    assert FirstScanReaches(After(server, leaseTime, churn), 0, 0);
    var stray := Move(0, 0, Granted("m", 0, 0));
    LegalExtends(server, leaseTime, churn, stray);
    ms := churn + [stray];
    assert After(server, leaseTime, ms).leases["m"].address == 0;
  }

  /** Leases stay inside the range over all runs exactly when the range does not end at
      255.255.255.255 (the cursor then wraps to 0.0.0.0) or starts at 0.0.0.0. */
  lemma {:induction false} InRangeIffNotAtTheTop(start: nat, end: nat, leaseTime: int)
    requires start <= end <= MAX_ADDRESS
    ensures AlwaysInRange(start, end, leaseTime) <==> end < MAX_ADDRESS || start == 0
  {
    var server := Fresh(start, end);
    if end < MAX_ADDRESS {
      forall ms | Legal(server, leaseTime, ms) ensures InRange(After(server, leaseTime, ms)) {
        RangeInvariant(server, leaseTime, ms);
      }
    } else if start == 0 {
      forall ms | Legal(server, leaseTime, ms) ensures InRange(After(server, leaseTime, ms)) {
        AddressesAre32Bit(server, leaseTime, ms);
      }
    } else {
      var ms := StrayRun(start, leaseTime);
      assert Legal(server, leaseTime, ms) && !InRange(After(server, leaseTime, ms));
    }
  }
}
