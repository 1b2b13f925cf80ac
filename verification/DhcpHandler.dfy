/** The DHCP message handler: a lease table over heap-allocated byte addresses. */
module DhcpHandler {
  import opened Wrappers
  import opened Ip
  import opened LeasePool
  import opened LeaseRuns
  import opened MonotoneClock

  datatype Slot = Slot(ip: array<byte>, expiresAt: int)

  datatype MessageType = Discover | Request | Release | Other

  datatype Message = Message(kind: MessageType, mac: string)

  datatype ReplyType = Offer | Ack

  datatype Reply = Reply(messageType: ReplyType, yourIP: array<byte>)

  class Handler {
    const startIP: array<byte>
    const endIP: array<byte>
    const leaseTime: int
    const clock: Clock
    const text: seq<byte> -> string  // how an address prints; never consulted on 4-byte addresses
    var leases: map<string, Slot>
    var nextIP: array<byte>

    ghost var pool: Pool               // the same table on numbers
    ghost var Repr: set<array<byte>>   // the address buffers in use; none is ever written to

    ghost predicate Valid()
      reads this, Repr
    {
      && clock.Valid()
      && {startIP, endIP, nextIP} <= Repr
      && startIP.Length == endIP.Length == nextIP.Length == 4
      && pool.start == Value(startIP[..]) && pool.end == Value(endIP[..]) && pool.next == Value(nextIP[..])
      && pool.leases.Keys == leases.Keys
      && forall m | m in leases :: leases[m].ip in Repr && SlotMatches(leases[m], pool.leases[m])
    }

    static ghost predicate SlotMatches(slot: Slot, lease: Lease)
      reads slot.ip
    {
      slot.ip.Length == 4 && Value(slot.ip[..]) == lease.address && slot.expiresAt == lease.expiresAt
    }

    // `startIP` and `nextIP` share one buffer at first, as both are views of the configured address.
    constructor (rangeStart: array<byte>, rangeEnd: array<byte>, leaseTime: int, clock: Clock, text: seq<byte> -> string)
      requires clock.Valid() && rangeStart.Length == rangeEnd.Length == 4
      ensures Valid() && this.clock == clock && this.leaseTime == leaseTime
      ensures pool == Fresh(Value(rangeStart[..]), Value(rangeEnd[..]))
    {
      startIP, endIP, nextIP := rangeStart, rangeEnd, rangeStart;
      this.leaseTime, this.clock, this.text := leaseTime, clock, text;
      leases := map[];
      pool := Fresh(Value(rangeStart[..]), Value(rangeEnd[..]));
      Repr := {rangeStart, rangeEnd};
    }

    /** Whether the lease of `m` is unexpired at this clock read and holds `ip`. */
    method LeaseHolds(m: string, ip: array<byte>) returns (holds: bool)
      requires Valid() && ip.Length == 4 && m in leases
      modifies clock
      ensures Valid() && clock.pos == old(clock.pos) + 1
      ensures holds ==> pool.leases[m].address == Value(ip[..]) && pool.leases[m].expiresAt > old(clock.Now())
      ensures !holds && pool.leases[m].address == Value(ip[..]) ==> pool.leases[m].expiresAt <= clock.Now()
    {
      var now := clock.Read();
      assert now <= clock.Now() && SlotMatches(leases[m], pool.leases[m]);
      holds := leases[m].expiresAt > now && Equal(ip[..], leases[m].ip[..]);
      if !holds && pool.leases[m].address == Value(ip[..]) {
        ValueInjective(leases[m].ip[..], ip[..]);
      }
    }

    /** Whether some unexpired lease holds `ip`, each lease judged by its own clock read. */
    method IsAllocated(ip: array<byte>, ghost a: nat) returns (taken: bool)
      requires Valid() && ip.Length == 4 && a == Value(ip[..])
      modifies clock
      ensures Valid() && old(clock.pos) <= clock.pos
      ensures if taken then Taken(pool, a, old(clock.Now())) && old(clock.pos) < clock.pos else !Taken(pool, a, clock.Now())
    {
      var pending := leases.Keys;
      while pending != {}
        invariant Valid() && old(clock.pos) <= clock.pos && pending <= leases.Keys && a == Value(ip[..])
        invariant NoneHolds(pool, leases.Keys - pending, a, clock.Now())
        decreases |pending|
      {
        var m :| m in pending;
        ghost var before := clock.Now();
        assert leases.Keys - (pending - {m}) - {m} == leases.Keys - pending;
        pending := pending - {m};
        var holds := LeaseHolds(m, ip);
        if holds {
          return true;
        }
        NoneHoldsMore(pool, leases.Keys - pending - {m}, m, leases.Keys - pending, a, before, clock.Now());
      }
      return false;
    }

    method CompareWithEnd(ip: array<byte>) returns (r: int)
      requires Valid() && ip.Length == 4
      ensures r == Sign(Value(ip[..]) - pool.end)
    {
      r := CompareIP(ip, endIP, text);
    }

    /** What both loops do at an address: compare it with the end and, unless it lies
        beyond, ask whether it is taken, which reads the clock at least once if it is. */
    method Look(at: array<byte>, ghost n: nat, ghost from: int) returns (order: int, taken: bool)
      requires Valid() && at.Length == 4 && n == Value(at[..]) && from <= clock.Now()
      modifies clock
      ensures Valid() && old(clock.pos) <= clock.pos && from <= clock.Now()
      ensures order == Sign(n - pool.end) && n == Value(at[..])
      ensures order <= 0 ==>
                if taken then Taken(pool, n, from) && Taken(pool, n, old(clock.Now())) && old(clock.pos) < clock.pos
                else !Taken(pool, n, clock.Now())
    {
      order := CompareWithEnd(at);
      taken := false;
      if order <= 0 {
        ghost var asked := clock.Now();
        taken := IsAllocated(at, n);
        if taken {
          TakenEarlier(pool, n, from, asked);
        }
      }
    }

    static lemma FourBytes()
      ensures Pow256(4) == MAX_ADDRESS + 1
    {
      assert Pow256(1) == 256 && Pow256(2) == 0x1_0000 && Pow256(3) == 0x100_0000;
    }

    static method NextAddress(ip: array<byte>, ghost n: nat) returns (next: array<byte>)
      requires ip.Length == 4 && n == Value(ip[..])
      ensures fresh(next) && next.Length == 4 && Value(next[..]) == Increment(n)
    {
      next := IncrementIP(ip);
      FourBytes();
      PrefixBound(ip[..], 4);
      ModuloStep(n, Pow256(4));
    }

    /** The first free address from the cursor up.  Null with `past` set means that the
        cursor had left the range, null without it that the rest of the range is taken. */
    method FirstScan(ghost from: int) returns (ip: array?<byte>, past: bool)
      requires Valid() && WellFormed(pool) && from <= clock.Now()
      modifies clock
      ensures Valid() && old(clock.pos) <= clock.pos && from <= clock.Now()
      ensures ip != null ==>
                && ip.Length == 4 && FirstScanReaches(pool, Value(ip[..]), from)
                && !Taken(pool, Value(ip[..]), clock.Now())
      ensures past ==> ip == null && pool.next > pool.end
      ensures ip == null && !past ==> pool.next <= pool.end && TakenBetween(pool, pool.next, pool.end + 1, from)
    {
      var at: array<byte> := CloneIP(nextIP);
      ghost var n := pool.next;
      while true
        invariant Valid() && old(clock.pos) <= clock.pos && from <= clock.Now()
        invariant at.Length == 4 && n == Value(at[..])
        invariant FirstPassed(pool, n, from)
        decreases pool.end - n
      {
        var order, taken := Look(at, n, from);
        if order > 0 {
          return null, true;
        }
        if !taken {
          return at, false;
        }
        if order == 0 {
          return null, false;
        }
        at := NextAddress(at, n);
        n := n + 1;
      }
    }

    /** By the clock's k-th read some 32-bit address is free. */
    ghost predicate FreeBy(k: nat)
      reads this, clock
    {
      clock.pos <= k && SomeFree(pool, clock.ticks(k))
    }

    /** The call for `mac` comes back at some read of the clock. */
    ghost predicate ComesBack(mac: string)
      reads this, clock
    {
      exists k: nat :: clock.pos <= k && Returns(pool, mac, clock.Now(), clock.ticks(k))
    }

    /** One round of the second loop, at `n`: beyond the range, free, or passed, and then
        nearer to its end, be it by clock reads or by steps. */
    method SecondRound(at: array<byte>, ghost n: nat, ghost wrapped: bool, ghost from: int, ghost k: nat, ghost goal: nat)
      returns (order: int, taken: bool, next: array<byte>)
      requires Valid() && at.Length == 4 && n == Value(at[..]) && from <= clock.Now()
      requires SecondPassed(pool, n, wrapped, from)
      requires pool.end == MAX_ADDRESS ==> goal <= MAX_ADDRESS && !Taken(pool, goal, clock.ticks(k))
      modifies clock
      ensures Valid() && old(clock.pos) <= clock.pos && from <= clock.Now() && n == Value(at[..])
      ensures order > 0 <==> n > pool.end
      ensures order <= 0 && !taken ==> SecondStops(pool, n, from) && !Taken(pool, n, clock.Now())
      ensures order <= 0 && taken ==>
                && next.Length == 4 && Value(next[..]) == Increment(n)
                && SecondPassed(pool, Increment(n), wrapped || n == MAX_ADDRESS, from)
                && Nearer(pool, k, goal, old(clock.pos), n, clock.pos, Increment(n))
    {
      ghost var before := clock.pos;
      next := at;
      order, taken := Look(at, n, from);
      if order <= 0 {
        if taken {
          SecondPasses(pool, n, wrapped, from);
          if k <= before || pool.end < MAX_ADDRESS {
            NotYetThere(pool, n, goal, clock.ticks(k), clock.ticks(before));
          }
          next := NextAddress(at, n);
        } else {
          SecondStopsHere(pool, n, wrapped, from);
        }
      }
    }

    /** The first free address from the start of the range, or, when the range ends at the
        last 32-bit address, from there on round; null when the range ends and all is taken. */
    method SecondScan(ghost from: int, ghost k: nat) returns (ip: array?<byte>)
      requires Valid() && WellFormed(pool) && from <= clock.Now()
      requires pool.end < MAX_ADDRESS || FreeBy(k)
      modifies clock
      ensures Valid() && old(clock.pos) <= clock.pos && from <= clock.Now()
      ensures ip != null ==> ip.Length == 4 && SecondStops(pool, Value(ip[..]), from) && !Taken(pool, Value(ip[..]), clock.Now())
      ensures ip == null ==> pool.end < MAX_ADDRESS && TakenBetween(pool, pool.start, pool.end + 1, from)
    {
      var at: array<byte> := CloneIP(startIP);
      ghost var n, wrapped, goal := pool.start, false, Goal(pool, clock.ticks(k));
      while true
        invariant Valid() && old(clock.pos) <= clock.pos && from <= clock.Now()
        invariant at.Length == 4 && n == Value(at[..]) && SecondPassed(pool, n, wrapped, from)
        decreases ReadsTo(pool, clock.pos, k), StepsTo(pool, n, goal)
      {
        var order, taken, next := SecondRound(at, n, wrapped, from, k, goal);
        if order > 0 {
          return null;
        }
        if !taken {
          return at;
        }
        at := next;
        n, wrapped := Increment(n), wrapped || n == MAX_ADDRESS;
      }
    }

    lemma {:induction false} UntakenIsUnheld(ip: array<byte>, t: int)
      requires Valid() && !Taken(pool, Value(ip[..]), t)
      ensures forall m | m in leases && Value(leases[m].ip[..]) == Value(ip[..]) :: leases[m].expiresAt <= t
    {
      forall m | m in leases && Value(leases[m].ip[..]) == Value(ip[..]) ensures leases[m].expiresAt <= t {
        assert SlotMatches(leases[m], pool.leases[m]);
      }
    }

    /** Both scans: the address a new lease may take, or null when none is found. */
    method FindFree(mac: string, ghost from: int, ghost k: nat) returns (ip: array?<byte>)
      requires Valid() && WellFormed(pool) && from <= clock.Now() && !Live(pool, mac, from)
      requires Returns(pool, mac, from, clock.ticks(k))
      modifies clock
      ensures Valid() && old(clock.pos) <= clock.pos && from <= clock.Now()
      ensures ip != null ==> ip.Length == 4 && !Taken(pool, Value(ip[..]), clock.Now()) && ScanReaches(pool, Value(ip[..]), from)
      ensures ip != null ==> forall m | m in leases && Value(leases[m].ip[..]) == Value(ip[..]) :: leases[m].expiresAt <= clock.Now()
      ensures ip == null ==> ScansFail(pool, from)
    {
      var past;
      ip, past := FirstScan(from);
      if ip == null && !past {
        ghost var later := if clock.pos <= k then k else clock.pos;
        if pool.end == MAX_ADDRESS {
          FreeStaysFree(pool, clock.ticks(k), clock.ticks(later));
        }
        ip := SecondScan(from, later);
        if ip != null {
        UntakenIsUnheld(ip, clock.Now());
      }
    }
    }

    /** Stamp and store a new lease, and move the cursor past it. */
    method Grant(mac: string, ip: array<byte>) returns (ghost e: Event)
      requires Valid() && ip.Length == 4
      modifies this, clock
      ensures Valid() && clock.pos == old(clock.pos) + 1
      ensures e == Granted(mac, Value(ip[..]), old(clock.Now())) && pool == Apply(old(pool), leaseTime, e)
      ensures leases == old(leases)[mac := Slot(ip, old(clock.Now()) + leaseTime)]
    {
      ghost var a := Value(ip[..]);
      var now := clock.Read();
      var next := NextAddress(ip, a);
      e := Granted(mac, a, now);
      Store(mac, ip, now, next, e);
    }

    method Store(mac: string, ip: array<byte>, now: int, next: array<byte>, ghost e: Event)
      requires Valid() && ip.Length == next.Length == 4
      requires e == Granted(mac, Value(ip[..]), now) && Value(next[..]) == Increment(e.address)
      modifies this
      ensures Valid() && leases == old(leases)[mac := Slot(ip, now + leaseTime)] && nextIP == next
      ensures pool == Apply(old(pool), leaseTime, e)
    {
      leases := leases[mac := Slot(ip, now + leaseTime)];
      nextIP := next;
      pool := Apply(pool, leaseTime, e);
      Repr := Repr + {ip, next};
    }

    /** The address for `mac`, or null when both scans come up empty.  `e` names the
        outcome; the returned buffer is the very one the table keeps. */
    method Assign(mac: string) returns (ip: array?<byte>, ghost e: Event)
      requires Valid() && WellFormed(pool) && ComesBack(mac)
      modifies this, clock
      ensures Valid() && old(clock.pos) <= clock.pos
      ensures IsAssign(e, mac) && Enabled(old(pool), old(clock.Now()), clock.Now(), e)
      ensures pool == Apply(old(pool), leaseTime, e)
      ensures e.Refused? <==> ip == null
      ensures ip == null && old(pool.next) <= old(pool.end) ==>
                TakenBetween(old(pool), old(pool.start), old(pool.end) + 1, old(clock.Now()))
      ensures ip != null ==> (e.Renewed? || e.Granted?) && mac in leases && ip == leases[mac].ip && Value(ip[..]) == e.address
      ensures e.Renewed? <==> mac in old(leases) && old(leases)[mac].expiresAt > old(clock.Now())
      ensures e.Granted? ==> leases[mac].expiresAt == e.stamped + leaseTime && old(clock.Now()) <= e.stamped <= clock.Now()
      ensures e.Granted? ==> forall m | m in old(leases) && Value(old(leases)[m].ip[..]) == e.address :: old(leases)[m].expiresAt <= e.stamped
      ensures !e.Granted? ==> leases == old(leases)
      ensures ip != null && leaseTime > 0 ==> leases[mac].expiresAt > old(clock.Now())
      ensures forall m | m in leases && m != mac :: m in old(leases) && leases[m] == old(leases)[m]
      ensures forall b | b in old(Repr) :: b[..] == old(b[..])
    {
      ghost var from := clock.Now();
      ghost var k :| clock.pos <= k && Returns(pool, mac, from, clock.ticks(k));
      if mac in leases {
        var now := clock.Read();
        if leases[mac].expiresAt > now {
          return leases[mac].ip, Renewed(mac, Value(leases[mac].ip[..]));
        }
      }
      ip, e := AssignNew(mac, from, k);
    }

    /** The rest of `assign`, for a MAC that had no live lease at `from`. */
    method AssignNew(mac: string, ghost from: int, ghost k: nat) returns (ip: array?<byte>, ghost e: Event)
      requires Valid() && WellFormed(pool) && from <= clock.Now() && !Live(pool, mac, from)
      requires Returns(pool, mac, from, clock.ticks(k))
      modifies this, clock
      ensures Valid() && old(clock.pos) <= clock.pos
      ensures IsAssign(e, mac) && !e.Renewed? && Enabled(old(pool), from, clock.Now(), e)
      ensures pool == Apply(old(pool), leaseTime, e)
      ensures ip == null ==> e.Refused? && leases == old(leases)
      ensures ip != null ==> e.Granted? && from <= e.stamped && leases == old(leases)[mac := Slot(ip, e.stamped + leaseTime)]
      ensures ip != null ==> Value(ip[..]) == e.address
      ensures ip != null ==> forall m | m in old(leases) && Value(old(leases)[m].ip[..]) == e.address :: old(leases)[m].expiresAt <= e.stamped
    {
      ip := FindFree(mac, from, k);
      if ip == null {
        e := Refused(mac);
      } else {
        e := Grant(mac, ip);
      }
    }

    method ReleaseLease(mac: string)
      requires Valid()
      modifies this
      ensures Valid() && pool == Apply(old(pool), leaseTime, Released(mac))
      ensures leases == old(leases) - {mac} && nextIP == old(nextIP)
    {
      leases := leases - {mac};
      pool := Apply(pool, leaseTime, Released(mac));
    }

    /** One message: DISCOVER is answered by an offer and REQUEST by an acknowledgement of
        the assigned address, which an unexpired lease of the sender then holds; RELEASE frees
        the lease, anything else is ignored. */
    method Handle(message: MessageType, mac: string) returns (reply: Option<Reply>, ghost outcome: Option<Event>)
      requires Valid() && WellFormed(pool) && (message.Discover? || message.Request? ==> ComesBack(mac))
      modifies this, clock
      ensures Valid() && old(clock.pos) <= clock.pos
      ensures outcome.None? <==> message.Other?
      ensures outcome.None? ==> pool == old(pool) && reply.None?
      ensures outcome.Some? ==>
                && outcome.value.mac == mac && (outcome.value.Released? <==> message.Release?)
                && Enabled(old(pool), old(clock.Now()), clock.Now(), outcome.value)
                && pool == Apply(old(pool), leaseTime, outcome.value)
      ensures reply.Some? <==> outcome.Some? && (outcome.value.Renewed? || outcome.value.Granted?)
      ensures reply.Some? ==>
                && reply.value.messageType == (if message.Discover? then Offer else Ack)
                && Value(reply.value.yourIP[..]) == outcome.value.address
      ensures reply.Some? ==> mac in leases && leases[mac].ip == reply.value.yourIP
      ensures reply.Some? && leaseTime > 0 ==> leases[mac].expiresAt > old(clock.Now())
    {
      match message
      case Discover =>
        reply, outcome := Respond(mac, Offer);
      case Request =>
        reply, outcome := Respond(mac, Ack);
      case Release =>
        ReleaseLease(mac);
        reply, outcome := None, Some(Released(mac));
      case Other =>
        reply, outcome := None, None;
    }

    method Respond(mac: string, messageType: ReplyType) returns (reply: Option<Reply>, ghost outcome: Option<Event>)
      requires Valid() && WellFormed(pool) && ComesBack(mac)
      modifies this, clock
      ensures Valid() && old(clock.pos) <= clock.pos
      ensures outcome.Some? && IsAssign(outcome.value, mac)
      ensures Enabled(old(pool), old(clock.Now()), clock.Now(), outcome.value)
      ensures pool == Apply(old(pool), leaseTime, outcome.value)
      ensures reply.None? <==> outcome.value.Refused?
      ensures reply.Some? ==>
                && (outcome.value.Renewed? || outcome.value.Granted?)
                && reply.value.messageType == messageType && Value(reply.value.yourIP[..]) == outcome.value.address
      ensures reply.Some? ==> mac in leases && leases[mac].ip == reply.value.yourIP
      ensures reply.Some? && leaseTime > 0 ==> leases[mac].expiresAt > old(clock.Now())
    {
      var ip, e := Assign(mac);
      outcome := Some(e);
      reply := if ip == null then None else Some(Reply(messageType, ip));
    }

    /** Messages handled one after the other, as under the handler's lock: the calls form a
        legal run of the pool, and every message is tied to its own move and reply. */
    method Serve(messages: seq<Message>) returns (replies: seq<Option<Reply>>, ghost outcomes: seq<Option<Move>>)
      requires Valid() && WellFormed(pool) && HasRoom(pool, |messages|)
      modifies this, clock
      ensures Valid() && WellFormed(pool)
      ensures |replies| == |outcomes| == |messages| && AllAnswered(messages, replies, outcomes)
      ensures Ran(old(pool), leaseTime, Moves(outcomes), old(clock.Now()), pool, clock.Now())
    {
      replies, outcomes := [], [];
      ghost var p, t := pool, clock.Now();
      for i := 0 to |messages|
        invariant Valid() && WellFormed(pool) && HasRoom(pool, |messages| - i)
        invariant |replies| == i && AllAnswered(messages, replies, outcomes)
        invariant Ran(p, leaseTime, Moves(outcomes), t, pool, clock.Now())
      {
        replies, outcomes := ServeNext(messages, replies, outcomes, p, t);
      }
    }

    method ServeNext(messages: seq<Message>, replies: seq<Option<Reply>>, ghost outcomes: seq<Option<Move>>, ghost p: Pool, ghost t: int)
      returns (replies': seq<Option<Reply>>, ghost outcomes': seq<Option<Move>>)
      requires |replies| < |messages| && AllAnswered(messages, replies, outcomes)
      requires Valid() && WellFormed(pool) && HasRoom(pool, |messages| - |replies|)
      requires Ran(p, leaseTime, Moves(outcomes), t, pool, clock.Now())
      modifies this, clock
      ensures |replies'| == |replies| + 1 && AllAnswered(messages, replies', outcomes')
      ensures Valid() && WellFormed(pool) && HasRoom(pool, |messages| - |replies'|)
      ensures Ran(p, leaseTime, Moves(outcomes'), t, pool, clock.Now())
    {
      ghost var q, u, outcome := pool, clock.Now(), None;
      var reply;
      reply, outcome := ServeOne(messages[|replies|], |messages| - |replies| - 1);
      RanOneMore(p, leaseTime, outcomes, t, q, u, outcome, pool, clock.Now());
      AnsweredOneMore(messages, replies, outcomes, reply, outcome);
      replies', outcomes' := replies + [reply], outcomes + [outcome];
    }

    method ServeOne(message: Message, ghost more: nat) returns (reply: Option<Reply>, ghost outcome: Option<Move>)
      requires Valid() && WellFormed(pool) && HasRoom(pool, more + 1)
      modifies this, clock
      ensures Valid() && WellFormed(pool) && HasRoom(pool, more)
      ensures Served(old(pool), leaseTime, old(clock.Now()), outcome, pool, clock.Now())
      ensures Answers(message, reply, outcome)
    {
      ghost var p, from := pool, clock.Now();
      var mac := message.mac;
      if pool.end == MAX_ADDRESS {
        FewLeasesAlwaysReturn(pool, mac, from, clock.ticks(clock.pos));
      }
      assert Returns(pool, mac, from, clock.ticks(clock.pos));
      ghost var event;
      reply, event := Handle(message.kind, mac);
      outcome := if event.None? then None else Some(Move(from, clock.Now(), event.value));
      if event.Some? {
        StepStaysSmall(p, leaseTime, from, clock.Now(), event.value);
      }
    }
  }

  // Messages, moves and replies -----------------------------------------------------------

  /** A message, the move it makes and the reply it gets: none is made exactly for an ignored
      message, only a RELEASE releases, and exactly a renewal or a grant is replied to, with
      its address, by an offer to DISCOVER and an acknowledgement to REQUEST. */
  ghost predicate Answers(message: Message, reply: Option<Reply>, outcome: Option<Move>)
    reads if reply.Some? then {reply.value.yourIP} else {}
  {
    && (outcome.None? <==> message.kind.Other?)
    && (outcome.Some? ==>
          outcome.value.event.mac == message.mac && (outcome.value.event.Released? <==> message.kind.Release?))
    && (reply.Some? <==> outcome.Some? && (outcome.value.event.Renewed? || outcome.value.event.Granted?))
    && (reply.Some? ==>
          && message.kind == (if reply.value.messageType.Offer? then Discover else Request)
          && Value(reply.value.yourIP[..]) == outcome.value.event.address)
  }

  ghost predicate AllAnswered(messages: seq<Message>, replies: seq<Option<Reply>>, outcomes: seq<Option<Move>>)
    reads set reply | reply in replies && reply.Some? :: reply.value.yourIP
  {
    && |replies| == |outcomes| <= |messages|
    && forall i | 0 <= i < |replies| :: Answers(messages[i], replies[i], outcomes[i])
  }

  lemma {:induction false} AnsweredOneMore(messages: seq<Message>, replies: seq<Option<Reply>>, outcomes: seq<Option<Move>>,
                                           reply: Option<Reply>, outcome: Option<Move>)
    requires |replies| < |messages| && AllAnswered(messages, replies, outcomes)
    requires Answers(messages[|replies|], reply, outcome)
    ensures AllAnswered(messages, replies + [reply], outcomes + [outcome])
  {
  }

  /** Even on a range ending at the last 32-bit address, `n` more leases leave one free. */
  predicate HasRoom(p: Pool, n: nat) {
    p.end < MAX_ADDRESS || |p.leases| + n <= MAX_ADDRESS
  }

  /** The moves made, in order. */
  function Moves(outcomes: seq<Option<Move>>): seq<Move> {
    if outcomes == [] then []
    else
      var n := |outcomes| - 1;
      Moves(outcomes[..n]) + if outcomes[n].Some? then [outcomes[n].value] else []
  }

  /** One message served between the instants `t` and `u` took `p` to `q`. */
  ghost predicate Served(p: Pool, leaseTime: int, t: int, outcome: Option<Move>, q: Pool, u: int) {
    && t <= u
    && (outcome.None? ==> q == p)
    && (outcome.Some? ==>
          && t <= outcome.value.from <= outcome.value.to <= u
          && Enabled(p, outcome.value.from, outcome.value.to, outcome.value.event)
          && q == Apply(p, leaseTime, outcome.value.event))
  }

  /** Calls made between `t` and `u` took `p` to `q` by the run `ms`. */
  ghost predicate Ran(p: Pool, leaseTime: int, ms: seq<Move>, t: int, q: Pool, u: int) {
    && t <= u
    && Legal(p, leaseTime, ms) && q == After(p, leaseTime, ms)
    && (ms != [] ==> t <= ms[0].from && ms[|ms| - 1].to <= u)
  }

  lemma {:induction false} RanOneMore(p: Pool, leaseTime: int, outcomes: seq<Option<Move>>, t: int, q: Pool, u: int,
                                      outcome: Option<Move>, r: Pool, v: int)
    requires Ran(p, leaseTime, Moves(outcomes), t, q, u) && Served(q, leaseTime, u, outcome, r, v)
    ensures Ran(p, leaseTime, Moves(outcomes + [outcome]), t, r, v)
  {
    assert (outcomes + [outcome])[..|outcomes|] == outcomes;
    if outcome.Some? {
      LegalExtends(p, leaseTime, Moves(outcomes), outcome.value);
    } else {
      assert Moves(outcomes + [outcome]) == Moves(outcomes);
    }
  }

  lemma {:induction false} StepStaysSmall(p: Pool, leaseTime: int, from: int, to: int, e: Event)
    requires WellFormed(p) && Enabled(p, from, to, e)
    ensures var q := Apply(p, leaseTime, e);
            WellFormed(q) && q.end == p.end && |q.leases| <= |p.leases| + 1
  {
    if e.Granted? {
      var q := Apply(p, leaseTime, e);
      assert q.leases.Keys == p.leases.Keys + {e.mac};
    } else if e.Released? {
      var q := Apply(p, leaseTime, e);
      assert q.leases.Keys <= p.leases.Keys;
      assert p.leases.Keys == q.leases.Keys + (p.leases.Keys - q.leases.Keys);
    }
  }

  // A client's view -----------------------------------------------------------------------

  lemma {:induction false} MoveHasMessage(outcomes: seq<Option<Move>>, k: nat) returns (i: nat)
    requires k < |Moves(outcomes)|
    ensures i < |outcomes| && outcomes[i] == Some(Moves(outcomes)[k])
  {
    var n := |outcomes| - 1;
    if k < |Moves(outcomes[..n])| {
      i := MoveHasMessage(outcomes[..n], k);
    } else {
      i := n;
    }
  }

  lemma {:induction false} MessageHasMove(outcomes: seq<Option<Move>>, i: nat) returns (k: nat)
    requires i < |outcomes| && outcomes[i].Some?
    ensures k < |Moves(outcomes)| && Moves(outcomes)[k] == outcomes[i].value
  {
    var n := |outcomes| - 1;
    if i < n {
      k := MessageHasMove(outcomes[..n], i);
    } else {
      k := |Moves(outcomes[..n])|;
    }
  }

  /** `mac` sends no RELEASE, and every call for it starts before `expiry`. */
  ghost predicate StaysOn(messages: seq<Message>, outcomes: seq<Option<Move>>, mac: string, expiry: int)
    requires |outcomes| <= |messages|
  {
    forall i | 0 <= i < |outcomes| && messages[i].mac == mac ::
      !messages[i].kind.Release? && (outcomes[i].Some? ==> outcomes[i].value.from < expiry)
  }

  lemma {:induction false} StayingOnKeepsLease(messages: seq<Message>, replies: seq<Option<Reply>>, outcomes: seq<Option<Move>>,
                                               mac: string, expiry: int)
    requires AllAnswered(messages, replies, outcomes) && StaysOn(messages, outcomes, mac, expiry)
    ensures KeepsLease(Moves(outcomes), mac, expiry)
  {
    var ms := Moves(outcomes);
    forall k | 0 <= k < |ms| && ms[k].event.mac == mac ensures !ms[k].event.Released? && ms[k].from < expiry {
      var i := MoveHasMessage(outcomes, k);
      assert Answers(messages[i], replies[i], outcomes[i]);
    }
  }

  /** What a client that holds a lease sees of a server: whatever other clients send, each
      DISCOVER and REQUEST of its own is replied to with the address it has, and its lease
      keeps its expiry, until it sends a RELEASE or the lease expires (sections 3.1 and 4.3.1
      of RFC 2131). */
  lemma {:induction false} ClientKeepsItsAddress(p: Pool, leaseTime: int, messages: seq<Message>, replies: seq<Option<Reply>>,
                                                 outcomes: seq<Option<Move>>, t: int, q: Pool, u: int, mac: string)
    requires AllAnswered(messages, replies, outcomes) && Ran(p, leaseTime, Moves(outcomes), t, q, u)
    requires mac in p.leases && StaysOn(messages, outcomes, mac, p.leases[mac].expiresAt)
    ensures mac in q.leases && q.leases[mac] == p.leases[mac]
    ensures forall i | 0 <= i < |replies| && messages[i].mac == mac && !messages[i].kind.Other? ::
              replies[i].Some? && Value(replies[i].value.yourIP[..]) == p.leases[mac].address
  {
    StayingOnKeepsLease(messages, replies, outcomes, mac, p.leases[mac].expiresAt);
    LeaseIsStable(p, leaseTime, Moves(outcomes), mac);
    forall i | 0 <= i < |replies| && messages[i].mac == mac && !messages[i].kind.Other?
      ensures replies[i].Some? && Value(replies[i].value.yourIP[..]) == p.leases[mac].address
    {
      assert Answers(messages[i], replies[i], outcomes[i]);
      var k := MessageHasMove(outcomes, i);
      assert Moves(outcomes)[k].event == Renewed(mac, p.leases[mac].address);
    }
  }
}
