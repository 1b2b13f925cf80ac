/** The DHCP lease pool on numeric addresses: what one call may do to it. */
module LeasePool {
  import opened Wrappers

  const MAX_ADDRESS: nat := 0xFFFF_FFFF

  datatype Lease = Lease(address: nat, expiresAt: int)

  datatype Pool = Pool(start: nat, end: nat, next: nat, leases: map<string, Lease>)

  /** The addresses of a pool are 32-bit and its range is not empty. */
  ghost predicate WellFormed(p: Pool) {
    && p.start <= p.end <= MAX_ADDRESS
    && p.next <= MAX_ADDRESS
    && forall m | m in p.leases :: p.leases[m].address <= MAX_ADDRESS
  }

  /** The next address; the last 32-bit one is followed by 0. */
  function Increment(a: nat): nat { if a == MAX_ADDRESS then 0 else a + 1 }

  predicate Live(p: Pool, mac: string, t: int) {
    mac in p.leases && p.leases[mac].expiresAt > t
  }

  predicate Taken(p: Pool, a: nat, t: int) {
    exists m | m in p.leases :: p.leases[m].address == a && p.leases[m].expiresAt > t
  }

  /** Every address from `lo` up to but excluding `hi` is taken at `t`. */
  ghost predicate TakenBetween(p: Pool, lo: nat, hi: nat, t: int) {
    forall a: nat | lo <= a < hi :: Taken(p, a, t)
  }

  // One call --------------------------------------------------------------------
  //
  // A call runs from the instant `from` of its first clock read to the instant `to`
  // at which its successor's first read would happen.  `stamped` is the read that
  // dates a new lease.

  datatype Event =
    | Renewed(mac: string, address: nat)
    | Granted(mac: string, address: nat, stamped: int)
    | Refused(mac: string)
    | Released(mac: string)

  /** Scanning up from the cursor stops at `a`, everything passed being taken. */
  ghost predicate FirstScanReaches(p: Pool, a: nat, t: int) {
    p.next <= a <= p.end && TakenBetween(p, p.next, a, t)
  }

  /** The first scan exhausts the range and the second one stops at `a`. */
  ghost predicate SecondScanReaches(p: Pool, a: nat, t: int) {
    && p.next <= p.end
    && TakenBetween(p, p.next, p.end + 1, t)
    && p.start <= a <= p.end
    && TakenBetween(p, p.start, a, t)
  }

  /** On a range that ends at the last 32-bit address the second scan does not end with the
      range: 255.255.255.255 is followed by 0.0.0.0, which is no larger than the end, and the
      scan goes on from there, round and round, until it meets a free address. */
  ghost predicate WrappedScanReaches(p: Pool, a: nat, t: int) {
    && p.next <= p.end == MAX_ADDRESS
    && TakenBetween(p, p.next, MAX_ADDRESS + 1, t)
    && TakenBetween(p, p.start, MAX_ADDRESS + 1, t)
    && a <= MAX_ADDRESS
    && TakenBetween(p, 0, a, t)
  }

  ghost predicate ScanReaches(p: Pool, a: nat, t: int) {
    FirstScanReaches(p, a, t) || SecondScanReaches(p, a, t) || WrappedScanReaches(p, a, t)
  }

  /** Both scans end without an address, which on a range ending at the last 32-bit address
      the second one never does. */
  ghost predicate ScansFail(p: Pool, t: int) {
    || p.next > p.end
    || (p.end < MAX_ADDRESS && TakenBetween(p, p.next, p.end + 1, t) && TakenBetween(p, p.start, p.end + 1, t))
  }

  ghost predicate Enabled(p: Pool, from: int, to: int, e: Event) {
    match e
    case Renewed(mac, a) => Live(p, mac, from) && p.leases[mac].address == a
    case Granted(mac, a, stamped) =>
      && !Live(p, mac, from)
      && from <= stamped <= to
      && ScanReaches(p, a, from)
      && !Taken(p, a, stamped)
    case Refused(mac) => !Live(p, mac, from) && ScansFail(p, from)
    case Released(_) => true
  }

  function Apply(p: Pool, leaseTime: int, e: Event): Pool {
    match e
    case Granted(mac, a, stamped) =>
      p.(leases := p.leases[mac := Lease(a, stamped + leaseTime)], next := Increment(a))
    case Released(mac) => p.(leases := p.leases - {mac})
    case _ => p
  }

  /** Among the leases of `macs` none on `a` is alive at `t`. */
  ghost predicate NoneHolds(p: Pool, macs: set<string>, a: nat, t: int) {
    forall m | m in macs && m in p.leases && p.leases[m].address == a :: p.leases[m].expiresAt <= t
  }

  lemma {:induction false} NoneHoldsMore(p: Pool, macs: set<string>, m: string, more: set<string>, a: nat, t: int, u: int)
    requires NoneHolds(p, macs, a, t) && t <= u && forall x | x in more :: x in macs || x == m
    requires m in p.leases && p.leases[m].address == a ==> p.leases[m].expiresAt <= u
    ensures NoneHolds(p, more, a, u)
  {
  }

  lemma TakenEarlier(p: Pool, a: nat, t: int, u: int)
    requires t <= u && Taken(p, a, u)
    ensures Taken(p, a, t)
  {
  }

  // Cyclic first fit ------------------------------------------------------------

  /** The first free address of `lo..hi`, if any. */
  function FirstFree(p: Pool, lo: nat, hi: nat, t: int): (r: Option<nat>)
    ensures r.None? <==> TakenBetween(p, lo, hi, t)
    ensures r.Some? ==> lo <= r.value < hi && !Taken(p, r.value, t) && TakenBetween(p, lo, r.value, t)
    decreases hi - lo
  {
    if lo >= hi then None
    else if !Taken(p, lo, t) then Some(lo)
    else FirstFree(p, lo + 1, hi, t)
  }

  /** The reference allocator: from the cursor up, then from the start of the range up to the
      cursor, then, if the range reaches the last 32-bit address, from 0 up to the start. */
  function CyclicFirstFree(p: Pool, t: int): Option<nat>
    requires p.start <= p.next <= p.end
  {
    match FirstFree(p, p.next, p.end + 1, t)
    case Some(a) => Some(a)
    case None =>
      match FirstFree(p, p.start, p.next, t)
      case Some(a) => Some(a)
      case None => if p.end == MAX_ADDRESS then FirstFree(p, 0, p.start, t) else None
  }

  /** What the code gives as a whole: the reference's choice, and a refusal when there is
      none, except that on a range reaching the last address it then does not come back. */
  ghost predicate FrozenOutcome(p: Pool, mac: string, t: int, e: Event)
    requires p.start <= p.next <= p.end
  {
    match CyclicFirstFree(p, t)
    case Some(a) => e == Granted(mac, a, t)
    case None => e == Refused(mac) && p.end < MAX_ADDRESS
  }

  lemma {:induction false} FirstFreeIsReached(p: Pool, t: int)
    requires WellFormed(p) && p.start <= p.next <= p.end && CyclicFirstFree(p, t).Some?
    ensures var a := CyclicFirstFree(p, t).value;
            a <= MAX_ADDRESS && !Taken(p, a, t) && ScanReaches(p, a, t)
  {
    var a := CyclicFirstFree(p, t).value;
    if FirstFree(p, p.next, p.end + 1, t).Some? {
      assert FirstScanReaches(p, a, t);
    } else if FirstFree(p, p.start, p.next, t).Some? {
      assert SecondScanReaches(p, a, t);
    } else {
      assert WrappedScanReaches(p, a, t);
    }
  }

  lemma {:induction false} ReachedIsFirstFree(p: Pool, a: nat, t: int)
    requires WellFormed(p) && p.start <= p.next <= p.end && !Taken(p, a, t) && ScanReaches(p, a, t)
    ensures CyclicFirstFree(p, t) == Some(a)
  {
    if FirstScanReaches(p, a, t) {
      assert FirstFree(p, p.next, p.end + 1, t) == Some(a);
    } else {
      assert FirstFree(p, p.next, p.end + 1, t).None?;
      if SecondScanReaches(p, a, t) {
        assert FirstFree(p, p.start, p.next, t) == Some(a);
      } else {
        assert FirstFree(p, p.start, p.next, t).None?;
        assert FirstFree(p, 0, p.start, t) == Some(a);
      }
    }
  }

  lemma {:induction false} NoFirstFreeMeansAllTaken(p: Pool, t: int)
    requires WellFormed(p) && p.start <= p.next <= p.end
    ensures CyclicFirstFree(p, t).None? <==> TakenBetween(p, if p.end < MAX_ADDRESS then p.start else 0, p.end + 1, t)
  {
    assert forall lo: nat, mid: nat, hi: nat | lo <= mid <= hi ::
        TakenBetween(p, lo, hi, t) <==> TakenBetween(p, lo, mid, t) && TakenBetween(p, mid, hi, t);
  }

  /** With the clock frozen for the call, a MAC without a live lease gets exactly what the
      reference allocator gives it, and nothing exactly when all is taken. */
  lemma {:induction false} FrozenCallIsCyclicFirstFit(p: Pool, mac: string, t: int, e: Event)
    requires WellFormed(p) && p.start <= p.next <= p.end
    requires !Live(p, mac, t) && !e.Released? && e.mac == mac
    ensures Enabled(p, t, t, e) <==> FrozenOutcome(p, mac, t, e)
    ensures CyclicFirstFree(p, t).None? <==> TakenBetween(p, if p.end < MAX_ADDRESS then p.start else 0, p.end + 1, t)
  {
    NoFirstFreeMeansAllTaken(p, t);
    if CyclicFirstFree(p, t).Some? {
      FirstFreeIsReached(p, t);
    }
    if e.Granted? && Enabled(p, t, t, e) {
      ReachedIsFirstFree(p, e.address, t);
    }
  }

  // Coming back ---------------------------------------------------------------------

  /** Some 32-bit address, inside the range or not, is free. */
  ghost predicate SomeFree(p: Pool, t: int) {
    !TakenBetween(p, 0, MAX_ADDRESS + 1, t)
  }

  /** `assign`, first reading the clock at `from`, comes back when its reads have reached `to`. */
  ghost predicate Returns(p: Pool, mac: string, from: int, to: int) {
    p.end < MAX_ADDRESS || Live(p, mac, from) || p.next > p.end || SomeFree(p, to)
  }

  ghost predicate IsAssign(e: Event, mac: string) {
    !e.Released? && e.mac == mac
  }

  lemma {:induction false} FreeStaysFree(p: Pool, t: int, u: int)
    requires t <= u && SomeFree(p, t)
    ensures SomeFree(p, u)
  {
    var a: nat :| a < MAX_ADDRESS + 1 && !Taken(p, a, t);
    if Taken(p, a, u) {
      TakenEarlier(p, a, t, u);
    }
  }

  lemma {:induction false} TakenBetweenEarlier(p: Pool, lo: nat, hi: nat, t: int, u: int)
    requires t <= u && TakenBetween(p, lo, hi, u)
    ensures TakenBetween(p, lo, hi, t)
  {
    forall a: nat | lo <= a < hi ensures Taken(p, a, t) {
      TakenEarlier(p, a, t, u);
    }
  }

  lemma {:induction false} SomeGrantOrRefusal(p: Pool, mac: string, from: int, to: int) returns (e: Event)
    requires WellFormed(p) && from <= to && Returns(p, mac, from, to) && !Live(p, mac, from) && p.next <= p.end
    ensures IsAssign(e, mac) && Enabled(p, from, to, e)
  {
    var first, second, low := FirstFree(p, p.next, p.end + 1, to), FirstFree(p, p.start, p.end + 1, to), FirstFree(p, 0, MAX_ADDRESS + 1, to);
    if first.Some? {
      e := Granted(mac, first.value, to);
      TakenBetweenEarlier(p, p.next, first.value, from, to);
      assert FirstScanReaches(p, first.value, from);
    } else {
      TakenBetweenEarlier(p, p.next, p.end + 1, from, to);
      if second.Some? {
        e := Granted(mac, second.value, to);
        TakenBetweenEarlier(p, p.start, second.value, from, to);
        assert SecondScanReaches(p, second.value, from);
      } else {
        TakenBetweenEarlier(p, p.start, p.end + 1, from, to);
        if p.end < MAX_ADDRESS {
          e := Refused(mac);
        } else {
          e := Granted(mac, low.value, to);
          TakenBetweenEarlier(p, 0, low.value, from, to);
          assert WrappedScanReaches(p, low.value, from);
        }
      }
    }
  }

  /** A call that reads the clock from `from` to `to` has an outcome exactly when `Returns`
      says so: on a range ending at the last 32-bit address and with the cursor inside it,
      some address of all there are must be free by then, or the second scan is still going. */
  lemma {:induction false} AnOutcomeExistsIffItReturns(p: Pool, mac: string, from: int, to: int)
    requires WellFormed(p) && from <= to
    ensures Returns(p, mac, from, to) <==> exists e: Event :: IsAssign(e, mac) && Enabled(p, from, to, e)
  {
    if Live(p, mac, from) {
      assert IsAssign(Renewed(mac, p.leases[mac].address), mac) && Enabled(p, from, to, Renewed(mac, p.leases[mac].address));
    } else if p.next > p.end {
      assert IsAssign(Refused(mac), mac) && Enabled(p, from, to, Refused(mac));
    } else if Returns(p, mac, from, to) {
      var e := SomeGrantOrRefusal(p, mac, from, to);
    } else {
      forall e | IsAssign(e, mac) && Enabled(p, from, to, e) ensures false {
        assert Taken(p, e.address, to);
        TakenEarlier(p, e.address, e.stamped, to);
      }
    }
  }

  // The loops ---------------------------------------------------------------------------

  /** What the first loop has passed when it comes to `n`, all of it taken at `t`. */
  ghost predicate FirstPassed(p: Pool, n: nat, t: int) {
    && (if p.next <= p.end then p.next <= n <= p.end else n == p.next)
    && TakenBetween(p, p.next, n, t)
  }

  /** What the second loop has passed when it comes to `n`, all of it taken at `t`; it has
      `wrapped` once it has gone from the last 32-bit address on to 0. */
  ghost predicate SecondPassed(p: Pool, n: nat, wrapped: bool, t: int) {
    && p.start <= p.end <= MAX_ADDRESS
    && n <= MAX_ADDRESS
    && if wrapped then p.end == MAX_ADDRESS && TakenBetween(p, p.start, MAX_ADDRESS + 1, t) && TakenBetween(p, 0, n, t)
       else p.start <= n <= p.end + 1 && TakenBetween(p, p.start, n, t)
  }

  ghost predicate SecondStops(p: Pool, a: nat, t: int) {
    && a <= p.end
    && ((p.start <= a && TakenBetween(p, p.start, a, t))
        || (p.end == MAX_ADDRESS && TakenBetween(p, p.start, MAX_ADDRESS + 1, t) && TakenBetween(p, 0, a, t)))
  }

  lemma {:induction false} SecondStopsHere(p: Pool, n: nat, wrapped: bool, t: int)
    requires SecondPassed(p, n, wrapped, t) && n <= p.end
    ensures SecondStops(p, n, t)
  {
  }

  lemma {:induction false} SecondPasses(p: Pool, n: nat, wrapped: bool, t: int)
    requires SecondPassed(p, n, wrapped, t) && n <= p.end && Taken(p, n, t)
    ensures SecondPassed(p, Increment(n), wrapped || n == MAX_ADDRESS, t)
  {
  }

  /** An address that is free by `t`, if there is one. */
  ghost function Goal(p: Pool, t: int): (goal: nat)
    ensures SomeFree(p, t) ==> goal <= MAX_ADDRESS && !Taken(p, goal, t)
  {
    if SomeFree(p, t) then FirstFree(p, 0, MAX_ADDRESS + 1, t).value else 0
  }

  /** How far the second loop still has to go: to the end of the range, or, on a range ending
      at the last 32-bit address, round to `goal` once the clock has been read `k` times. */
  function StepsTo(p: Pool, n: nat, goal: nat): nat {
    if p.end < MAX_ADDRESS then (if n <= p.end then p.end + 1 - n else 0)
    else if n <= goal then goal - n
    else if n <= MAX_ADDRESS then MAX_ADDRESS + 1 - n + goal
    else 0
  }

  function ReadsTo(p: Pool, pos: nat, k: nat): nat {
    if p.end < MAX_ADDRESS || k <= pos then 0 else k - pos
  }

  /** From the clock position and address `pos'`, `n'` it is not as far as from `pos`, `n`. */
  predicate Nearer(p: Pool, k: nat, goal: nat, pos: nat, n: nat, pos': nat, n': nat) {
    || ReadsTo(p, pos', k) < ReadsTo(p, pos, k)
    || (ReadsTo(p, pos', k) == ReadsTo(p, pos, k) && StepsTo(p, n', goal) < StepsTo(p, n, goal))
  }

  lemma {:induction false} NotYetThere(p: Pool, n: nat, goal: nat, t: int, u: int)
    requires n <= p.end <= MAX_ADDRESS
    requires p.end == MAX_ADDRESS ==> goal <= MAX_ADDRESS && !Taken(p, goal, t) && t <= u && Taken(p, n, u)
    ensures StepsTo(p, Increment(n), goal) < StepsTo(p, n, goal)
  {
    if p.end == MAX_ADDRESS && n == goal {
      TakenEarlier(p, n, t, u);
    }
  }
}
