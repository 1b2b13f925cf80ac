/** What holds over every sequence of token-store operations. */
module TokenRuns {
  import opened Wrappers
  import opened TokenTable

  // Rotation lineages -------------------------------------------------------------------

  /** `x` exists no more or has expired by `now`. */
  predicate Dead(rows: Table, x: string, now: int) {
    x in rows ==> rows[x].expiresAt <= now
  }

  ghost predicate NoDuplicates(chain: seq<string>) {
    forall i, j | 0 <= i < j < |chain| :: chain[i] != chain[j]
  }

  /** The chain issued as `r`: it starts with `r`, holds exactly the values that descend
      from it, each once, and all but its newest are dead. */
  ghost predicate ChainOf(s: Store, r: string, now: int)
    requires r in s.chains
  {
    var chain := s.chains[r];
    && chain != [] && chain[0] == r && NoDuplicates(chain)
    && (forall i | 0 <= i < |chain| :: chain[i] in s.root && s.root[chain[i]] == r)
    && (forall i | 0 <= i < |chain| - 1 :: Dead(s.rows, chain[i], now))
  }

  ghost predicate Lineages(s: Store, now: int) {
    && (forall r | r in s.chains :: ChainOf(s, r, now))
    && (forall x | x in s.root :: s.root[x] in s.chains && x in s.chains[s.root[x]])
    && (forall x | x in s.rows :: x in s.root)
  }

  lemma {:induction false} AliveIsNewest(s: Store, earlier: int, now: int, x: string)
    requires Lineages(s, earlier) && earlier <= now && x in s.rows && s.rows[x].expiresAt > now
    ensures x in s.root && s.root[x] in s.chains
    ensures var chain := s.chains[s.root[x]]; chain != [] && x == chain[|chain| - 1]
  {
    assert x in s.root;
    var chain := s.chains[s.root[x]];
    assert ChainOf(s, s.root[x], earlier);
    var i :| 0 <= i < |chain| && chain[i] == x;
    assert !Dead(s.rows, x, earlier);
  }

  lemma {:induction false} OnlyNewestRotates(s: Store, now: int, mv: Move)
    requires Lineages(s, now) && now <= mv.from <= mv.to && mv.event.Rotated? && Enabled(s, mv)
    ensures var previous := mv.event.previous;
            && previous in s.root && s.root[previous] in s.chains
            && var chain := s.chains[s.root[previous]]; chain != [] && previous == chain[|chain| - 1]
  {
    AliveIsNewest(s, now, mv.to, mv.event.previous);
  }

  lemma {:induction false} DeadStaysDead(s: Store, ttl: int, mv: Move, x: string, now: int)
    requires now <= mv.from <= mv.to && Enabled(s, mv) && x in s.root && Dead(s.rows, x, now)
    ensures Dead(Apply(s, ttl, mv).rows, x, mv.to) && x in Apply(s, ttl, mv).root
  {
  }

  /** From `s` to `s'` no value is lost, none changes its chain, and none comes back to life. */
  ghost predicate Ages(s: Store, now: int, s': Store, later: int) {
    forall x | x in s.root :: x in s'.root && s'.root[x] == s.root[x] && (Dead(s.rows, x, now) ==> Dead(s'.rows, x, later))
  }

  lemma {:induction false} ChainKept(s: Store, now: int, s': Store, later: int, r: string)
    requires r in s.chains && ChainOf(s, r, now) && Ages(s, now, s', later)
    requires r in s'.chains && s'.chains[r] == s.chains[r]
    ensures ChainOf(s', r, later)
  {
    var chain := s.chains[r];
    forall i | 0 <= i < |chain| ensures chain[i] in s'.root && s'.root[chain[i]] == r {
      assert chain[i] in s.root;
    }
    forall i | 0 <= i < |chain| - 1 ensures Dead(s'.rows, chain[i], later) {
      assert chain[i] in s.root && Dead(s.rows, chain[i], now);
    }
  }

  lemma {:induction false} ChainGrown(s: Store, now: int, s': Store, later: int, r: string, x: string)
    requires r in s.chains && ChainOf(s, r, now) && Ages(s, now, s', later)
    requires x !in s.root && x in s'.root && s'.root[x] == r
    requires Dead(s'.rows, s.chains[r][|s.chains[r]| - 1], later)
    requires r in s'.chains && s'.chains[r] == s.chains[r] + [x]
    ensures ChainOf(s', r, later)
  {
    var chain := s.chains[r];
    forall i | 0 <= i < |chain| ensures chain[i] != x && chain[i] in s'.root && s'.root[chain[i]] == r {
      assert chain[i] in s.root;
    }
    forall i | 0 <= i < |chain| ensures Dead(s'.rows, chain[i], later) {
      if i < |chain| - 1 {
        assert chain[i] in s.root && Dead(s.rows, chain[i], now);
      }
    }
  }

  lemma {:induction false} OnlyAges(s: Store, ttl: int, mv: Move, now: int)
    requires Lineages(s, now) && now <= mv.from <= mv.to && Enabled(s, mv)
    requires !mv.event.Issued? && !mv.event.Rotated?
    ensures var s' := Apply(s, ttl, mv);
            s'.root == s.root && s'.chains == s.chains && s'.rows.Keys <= s.rows.Keys && Ages(s, now, s', mv.to)
  {
    forall x | x in s.root && Dead(s.rows, x, now) ensures Dead(Apply(s, ttl, mv).rows, x, mv.to) {
      DeadStaysDead(s, ttl, mv, x, now);
    }
  }

  /** Operations that create no token leave the chains alone and bring no row back to life. */
  lemma {:induction false} ChainsOnlyAge(s: Store, ttl: int, mv: Move, now: int, s': Store)
    requires Lineages(s, now) && now <= mv.from <= mv.to && Enabled(s, mv) && s' == Apply(s, ttl, mv)
    requires !mv.event.Issued? && !mv.event.Rotated?
    ensures Lineages(s', mv.to)
  {
    OnlyAges(s, ttl, mv, now);
    forall r | r in s'.chains ensures ChainOf(s', r, mv.to) {
      assert ChainOf(s, r, now);
      ChainKept(s, now, s', mv.to, r);
    }
  }

  lemma {:induction false} IssueEffect(s: Store, ttl: int, mv: Move, now: int)
    requires Lineages(s, now) && now <= mv.from <= mv.to && Enabled(s, mv) && mv.event.Issued?
    ensures var s', x := Apply(s, ttl, mv), mv.event.token;
            && x !in s.root && s'.root == s.root[x := x] && s'.chains == s.chains[x := [x]]
            && s'.rows.Keys <= s.rows.Keys + {x} && Ages(s, now, s', mv.to)
  {
    forall x | x in s.root && Dead(s.rows, x, now) ensures Dead(Apply(s, ttl, mv).rows, x, mv.to) {
      DeadStaysDead(s, ttl, mv, x, now);
    }
  }

  lemma {:induction false} IssueStartsChain(s: Store, ttl: int, mv: Move, now: int, s': Store)
    requires Lineages(s, now) && now <= mv.from <= mv.to && Enabled(s, mv) && mv.event.Issued? && s' == Apply(s, ttl, mv)
    ensures Lineages(s', mv.to)
  {
    var x := mv.event.token;
    IssueEffect(s, ttl, mv, now);
    forall r | r in s'.chains ensures ChainOf(s', r, mv.to) {
      if r != x {
        assert ChainOf(s, r, now);
        ChainKept(s, now, s', mv.to, r);
      }
    }
    assert s'.chains[x][0] == x;
  }

  /** A rotation ages the store and adds the new value to the old one's chain. */
  lemma {:induction false} RotateEffect(s: Store, ttl: int, mv: Move, now: int)
    requires Lineages(s, now) && now <= mv.from <= mv.to && Enabled(s, mv) && mv.event.Rotated?
    ensures var s', previous, x := Apply(s, ttl, mv), mv.event.previous, mv.event.token;
            && previous in s.root && s.root[previous] in s.chains
            && x !in s.root && Ages(s, now, s', mv.to) && Dead(s'.rows, previous, mv.to)
            && s'.root == s.root[x := s.root[previous]]
            && s'.chains == s.chains[s.root[previous] := s.chains[s.root[previous]] + [x]]
            && s'.rows.Keys <= s.rows.Keys + {x}
  {
    OnlyNewestRotates(s, now, mv);
    forall x | x in s.root && Dead(s.rows, x, now) ensures Dead(Apply(s, ttl, mv).rows, x, mv.to) {
      DeadStaysDead(s, ttl, mv, x, now);
    }
  }

  lemma {:induction false} ChainAfterRotate(s: Store, ttl: int, mv: Move, now: int, s': Store, r: string)
    requires Lineages(s, now) && now <= mv.from <= mv.to && Enabled(s, mv) && mv.event.Rotated? && s' == Apply(s, ttl, mv)
    requires r in s.chains
    ensures r in s'.chains && ChainOf(s', r, mv.to)
  {
    RotateEffect(s, ttl, mv, now);
    assert ChainOf(s, r, now);
    if r == s.root[mv.event.previous] {
      OnlyNewestRotates(s, now, mv);
      ChainGrown(s, now, s', mv.to, r, mv.event.token);
    } else {
      ChainKept(s, now, s', mv.to, r);
    }
  }

  lemma {:induction false} RotateExtendsChain(s: Store, ttl: int, mv: Move, now: int, s': Store)
    requires Lineages(s, now) && now <= mv.from <= mv.to && Enabled(s, mv) && mv.event.Rotated? && s' == Apply(s, ttl, mv)
    ensures Lineages(s', mv.to)
  {
    RotateEffect(s, ttl, mv, now);
    var root := s.root[mv.event.previous];
    forall r | r in s'.chains ensures ChainOf(s', r, mv.to) {
      ChainAfterRotate(s, ttl, mv, now, s', r);
    }
    assert s'.chains[root][|s.chains[root]|] == mv.event.token;
  }

  lemma {:induction false} LineagesStep(s: Store, ttl: int, mv: Move, now: int)
    requires Lineages(s, now) && now <= mv.from <= mv.to && Enabled(s, mv)
    ensures Lineages(Apply(s, ttl, mv), mv.to)
  {
    if mv.event.Rotated? {
      RotateExtendsChain(s, ttl, mv, now, Apply(s, ttl, mv));
    } else if mv.event.Issued? {
      IssueStartsChain(s, ttl, mv, now, Apply(s, ttl, mv));
    } else {
      ChainsOnlyAge(s, ttl, mv, now, Apply(s, ttl, mv));
    }
  }

  /** Tokens form disjoint linear chains rooted at the issued ones, over every sequence of operations. */
  lemma {:induction false} LineagesAlways(ttl: int, ms: seq<Move>, t: int)
    requires Legal(EMPTY, ttl, ms, t)
    ensures Lineages(After(EMPTY, ttl, ms), LastInstant(ms, t))
  {
    if ms != [] {
      var n := |ms| - 1;
      LineagesAlways(ttl, ms[..n], t);
      LineagesStep(After(EMPTY, ttl, ms[..n]), ttl, ms[n], LastInstant(ms[..n], t));
    }
  }

  /** At any time a chain has at most one unexpired token, and it is the newest. */
  lemma {:induction false} OneLiveTokenPerChain(ttl: int, ms: seq<Move>, t: int, now: int, x: string, y: string)
    requires Legal(EMPTY, ttl, ms, t) && LastInstant(ms, t) <= now
    requires var s := After(EMPTY, ttl, ms);
             && x in s.rows && y in s.rows && x in s.root && y in s.root && s.root[x] == s.root[y]
             && s.rows[x].expiresAt > now && s.rows[y].expiresAt > now
    ensures x == y
  {
    LineagesAlways(ttl, ms, t);
    AliveIsNewest(After(EMPTY, ttl, ms), LastInstant(ms, t), now, x);
    AliveIsNewest(After(EMPTY, ttl, ms), LastInstant(ms, t), now, y);
  }

  lemma {:induction false} DeadAlways(ttl: int, ms: seq<Move>, t: int, i: nat, x: string)
    requires Legal(EMPTY, ttl, ms, t) && i <= |ms|
    requires var s := After(EMPTY, ttl, ms[..i]); x in s.root && Dead(s.rows, x, LastInstant(ms[..i], t))
    ensures var s := After(EMPTY, ttl, ms); x in s.root && Dead(s.rows, x, LastInstant(ms, t))
    decreases |ms|
  {
    if i < |ms| {
      var n := |ms| - 1;
      assert ms[..n][..i] == ms[..i];
      DeadAlways(ttl, ms[..n], t, i, x);
      DeadStaysDead(After(EMPTY, ttl, ms[..n]), ttl, ms[n], x, LastInstant(ms[..n], t));
    } else {
      assert ms[..i] == ms;
    }
  }

  lemma {:induction false} RotatedIsDead(ttl: int, ms: seq<Move>, t: int, i: nat)
    requires Legal(EMPTY, ttl, ms, t) && i < |ms| && ms[i].event.Rotated?
    ensures var s := After(EMPTY, ttl, ms[..i + 1]);
            ms[i].event.previous in s.root && Dead(s.rows, ms[i].event.previous, LastInstant(ms[..i + 1], t))
  {
    LegalPrefix(EMPTY, ttl, ms, t, i);
    LegalAt(EMPTY, ttl, ms, t, i);
    LineagesAlways(ttl, ms[..i], t);
    RotateEffect(After(EMPTY, ttl, ms[..i]), ttl, ms[i], LastInstant(ms[..i], t));
    assert LastInstant(ms[..i + 1], t) == ms[i].to;
  }

  lemma {:induction false} DeadCannotRotate(s: Store, now: int, mv: Move, x: string)
    requires Dead(s.rows, x, now) && now <= mv.from <= mv.to && mv.event.Rotated? && Enabled(s, mv)
    ensures mv.event.previous != x
  {
  }

  lemma {:induction false} DeadUntil(ttl: int, ms: seq<Move>, t: int, i: nat, j: nat, x: string)
    requires Legal(EMPTY, ttl, ms, t) && i <= j <= |ms|
    requires var s := After(EMPTY, ttl, ms[..i]); x in s.root && Dead(s.rows, x, LastInstant(ms[..i], t))
    ensures Dead(After(EMPTY, ttl, ms[..j]).rows, x, LastInstant(ms[..j], t))
  {
    LegalPrefix(EMPTY, ttl, ms, t, j);
    assert ms[..j][..i] == ms[..i];
    DeadAlways(ttl, ms[..j], t, i, x);
  }

  /** Each token value is rotated successfully at most once. */
  lemma {:induction false} RotatedAtMostOnce(ttl: int, ms: seq<Move>, t: int, i: nat, j: nat)
    requires Legal(EMPTY, ttl, ms, t) && i < j < |ms| && ms[i].event.Rotated? && ms[j].event.Rotated?
    ensures ms[i].event.previous != ms[j].event.previous
  {
    RotatedIsDead(ttl, ms, t, i);
    DeadUntil(ttl, ms, t, i + 1, j, ms[i].event.previous);
    LegalAt(EMPTY, ttl, ms, t, j);
    DeadCannotRotate(After(EMPTY, ttl, ms[..j]), LastInstant(ms[..j], t), ms[j], ms[i].event.previous);
  }

  // Purging -----------------------------------------------------------------------------

  /** What the reference store, which keeps every row for ever and only looks at expiries,
      answers to the request that `mv` is the real store's answer to. */
  function RefEvent(ref: Store, mv: Move): Event {
    match mv.event
    case MarkedUsed(x) => MarkOutcome(ref.rows, x)
    case MarkRefused(x) => MarkOutcome(ref.rows, x)
    case RotateNotFound(mac, previous) => RotateRefusal(ref.rows, mac, previous)
    case RotateExpired(mac, previous) => RotateRefusal(ref.rows, mac, previous)
    case e => e
  }

  function MarkOutcome(rows: Table, x: string): Event {
    if x in rows then MarkedUsed(x) else MarkRefused(x)
  }

  function RotateRefusal(rows: Table, mac: string, previous: string): Event {
    if previous in rows && rows[previous].mac == mac then RotateExpired(mac, previous) else RotateNotFound(mac, previous)
  }

  /** The reference decides everything at the one instant `mv.to`. */
  ghost predicate RefEnabled(ref: Store, mv: Move) {
    match mv.event
    case Issued(_, x, id) => FreshRow(ref, x, id)
    case ActiveAsked(mac, answer) => ActiveAnswer(ref.rows, mac, mv.to, answer)
    case MarkedUsed(x) => x in ref.rows
    case MarkRefused(x) => x !in ref.rows
    case Rotated(mac, previous, x, id) => FreshRow(ref, x, id) && Rotatable(ref.rows, mac, previous, mv.to)
    case RotateNotFound(mac, previous) => !(previous in ref.rows && ref.rows[previous].mac == mac)
    case RotateExpired(mac, previous) =>
      previous in ref.rows && ref.rows[previous].mac == mac && ref.rows[previous].expiresAt <= mv.to
    case _ => true
  }

  function RefApply(ref: Store, ttl: int, mv: Move): Store {
    match mv.event
    case Issued(mac, x, id) =>
      Store(ref.rows[x := Row(id, mac, mv.to + ttl, false)], ref.root[x := x], ref.chains[x := [x]], ref.ids + {id})
    case MarkedUsed(x) => if x in ref.rows then ref.(rows := MarkRow(ref.rows, x)) else ref
    case Rotated(mac, previous, x, id) =>
      if previous in ref.rows then
        Replace(ref, RotateRow(ref.rows, previous, x, Row(id, mac, mv.to + ttl, false), mv.to), previous, x, id)
      else ref
    case _ => ref
  }

  /** The reference serves the same request in its own way. */
  function RefServe(ref: Store, ttl: int, mv: Move): Store {
    RefApply(ref, ttl, mv.(event := RefEvent(ref, mv)))
  }

  function RefAfter(ref: Store, ttl: int, ms: seq<Move>): Store {
    if ms == [] then ref else RefServe(RefAfter(ref, ttl, ms[..|ms| - 1]), ttl, ms[|ms| - 1])
  }

  /** The tables agree on every row that has not expired, and the real one has no others
      that the reference lacks. */
  ghost predicate RowsAgree(rows: Table, ref: Table, now: int) {
    && (forall x | x in rows :: x in ref && rows[x] == ref[x])
    && (forall x | x in ref && x !in rows :: ref[x].expiresAt <= now)
  }

  ghost predicate Agrees(s: Store, ref: Store, now: int) {
    && s.root == ref.root && s.chains == ref.chains && s.ids == ref.ids
    && RowsAgree(s.rows, ref.rows, now) && ref.rows.Keys <= ref.root.Keys
  }

  predicate Observed(e: Event) {
    e.Issued? || e.ActiveAsked? || e.Rotated?
  }

  /** How the reference's answer may differ from the real store's: it marks a row that the
      real store, the token being dead, no longer has, and it may refuse a rotation with
      the other of the two errors. */
  ghost predicate Alike(ref: Store, mv: Move, e: Event) {
    || e == mv.event
    || (mv.event.MarkRefused? && e == MarkedUsed(mv.event.token) && Dead(ref.rows, mv.event.token, mv.from))
    || (mv.event.RotateNotFound? && e == RotateExpired(mv.event.mac, mv.event.previous))
  }

  lemma {:induction false} SameUsable(s: Store, ref: Store, now: int, mv: Move, mac: string, y: string)
    requires Agrees(s, ref, now) && now <= mv.from <= mv.to
    ensures Usable(Purge(s.rows, mv.from), mac, y, mv.to) <==> Usable(ref.rows, mac, y, mv.to)
    ensures Usable(ref.rows, mac, y, mv.to) ==> y in s.rows && Purge(s.rows, mv.from)[y] == ref.rows[y]
  {
  }

  lemma {:induction false} SameAnswers(s: Store, ref: Store, now: int, mv: Move)
    requires Agrees(s, ref, now) && now <= mv.from <= mv.to && mv.event.ActiveAsked?
    ensures Enabled(s, mv) <==> RefEnabled(ref, mv)
  {
    var mac := mv.event.mac;
    forall y
      ensures Usable(Purge(s.rows, mv.from), mac, y, mv.to) <==> Usable(ref.rows, mac, y, mv.to)
      ensures Usable(ref.rows, mac, y, mv.to) ==> Purge(s.rows, mv.from)[y] == ref.rows[y]
    {
      SameUsable(s, ref, now, mv, mac, y);
    }
  }

  /** Issue, Active and successful Rotate can go exactly the same way in both stores. */
  lemma {:induction false} SameObservations(s: Store, ref: Store, now: int, mv: Move)
    requires Agrees(s, ref, now) && now <= mv.from <= mv.to && Observed(mv.event)
    ensures Enabled(s, mv) <==> RefEnabled(ref, mv)
  {
    if mv.event.ActiveAsked? {
      SameAnswers(s, ref, now, mv);
    }
  }

  /** Whatever the real store answers, the reference's own answer is possible there and alike. */
  lemma {:induction false} RefAnswersAlike(s: Store, ref: Store, now: int, mv: Move)
    requires Agrees(s, ref, now) && now <= mv.from <= mv.to && Enabled(s, mv)
    ensures RefEnabled(ref, mv.(event := RefEvent(ref, mv))) && Alike(ref, mv, RefEvent(ref, mv))
  {
    if Observed(mv.event) {
      SameObservations(s, ref, now, mv);
    }
  }

  lemma {:induction false} PurgeAgrees(rows: Table, ref: Table, now: int, t: int)
    requires RowsAgree(rows, ref, now) && now <= t
    ensures RowsAgree(Purge(rows, t), ref, t)
  {
  }

  lemma {:induction false} PutAgrees(rows: Table, ref: Table, now: int, x: string, row: Row)
    requires RowsAgree(rows, ref, now)
    ensures RowsAgree(rows[x := row], ref[x := row], now)
  {
  }

  lemma {:induction false} MarkAgrees(rows: Table, ref: Table, now: int, x: string)
    requires RowsAgree(rows, ref, now) && x in ref
    ensures RowsAgree(if x in rows then MarkRow(rows, x) else rows, MarkRow(ref, x), now)
  {
  }

  lemma {:induction false} LaterAgrees(rows: Table, ref: Table, now: int, t: int)
    requires RowsAgree(rows, ref, now) && now <= t
    ensures RowsAgree(rows, ref, t)
  {
  }

  lemma {:induction false} RotateAgrees(rows: Table, ref: Table, now: int, previous: string, x: string, row: Row, at: int)
    requires RowsAgree(rows, ref, now) && previous in rows && x != previous
    ensures previous in ref && RowsAgree(RotateRow(rows, previous, x, row, at), RotateRow(ref, previous, x, row, at), now)
  {
    var expired := rows[previous].(used := true, expiresAt := at);
    PutAgrees(rows, ref, now, previous, expired);
    PutAgrees(rows[previous := expired], ref[previous := expired], now, x, row);
  }

  lemma {:induction false} AgreementOfIssue(s: Store, ref: Store, ttl: int, now: int, mv: Move)
    requires Agrees(s, ref, now) && now <= mv.from <= mv.to && Enabled(s, mv) && mv.event.Issued?
    ensures Agrees(Apply(s, ttl, mv), RefServe(ref, ttl, mv), mv.to)
  {
    var e := mv.event;
    var row := Row(e.id, e.mac, mv.to + ttl, false);
    PurgeAgrees(s.rows, ref.rows, now, mv.from);
    PutAgrees(Purge(s.rows, mv.from), ref.rows, mv.from, e.token, row);
    LaterAgrees(Purge(s.rows, mv.from)[e.token := row], ref.rows[e.token := row], mv.from, mv.to);
  }

  lemma {:induction false} AgreementOfRotate(s: Store, ref: Store, ttl: int, now: int, mv: Move)
    requires Agrees(s, ref, now) && now <= mv.from <= mv.to && Enabled(s, mv) && mv.event.Rotated?
    ensures Agrees(Apply(s, ttl, mv), RefServe(ref, ttl, mv), mv.to)
  {
    var e, rows := mv.event, Purge(s.rows, mv.from);
    var row := Row(e.id, e.mac, mv.to + ttl, false);
    PurgeAgrees(s.rows, ref.rows, now, mv.from);
    LaterAgrees(rows, ref.rows, mv.from, mv.to);
    assert e.previous in s.rows && e.previous in ref.root;
    RotateAgrees(rows, ref.rows, mv.to, e.previous, e.token, row, mv.to);
  }

  lemma {:induction false} AgreementOfMark(s: Store, ref: Store, ttl: int, now: int, mv: Move)
    requires Agrees(s, ref, now) && now <= mv.from <= mv.to && Enabled(s, mv) && (mv.event.MarkedUsed? || mv.event.MarkRefused?)
    ensures Agrees(Apply(s, ttl, mv), RefServe(ref, ttl, mv), mv.to)
  {
    LaterAgrees(s.rows, ref.rows, now, mv.to);
    if mv.event.token in ref.rows {
      MarkAgrees(s.rows, ref.rows, mv.to, mv.event.token);
    }
  }

  lemma {:induction false} AgreementStep(s: Store, ref: Store, ttl: int, now: int, mv: Move)
    requires Agrees(s, ref, now) && now <= mv.from <= mv.to && Enabled(s, mv)
    ensures Agrees(Apply(s, ttl, mv), RefServe(ref, ttl, mv), mv.to)
  {
    if mv.event.Issued? {
      AgreementOfIssue(s, ref, ttl, now, mv);
    } else if mv.event.Rotated? {
      AgreementOfRotate(s, ref, ttl, now, mv);
    } else if mv.event.MarkedUsed? || mv.event.MarkRefused? {
      AgreementOfMark(s, ref, ttl, now, mv);
    } else {
      PurgeAgrees(s.rows, ref.rows, now, mv.from);
      LaterAgrees(Purge(s.rows, mv.from), ref.rows, mv.from, mv.to);
      LaterAgrees(s.rows, ref.rows, now, mv.to);
    }
  }

  lemma {:induction false} AgreesAlways(ttl: int, ms: seq<Move>, t: int)
    requires Legal(EMPTY, ttl, ms, t)
    ensures Agrees(After(EMPTY, ttl, ms), RefAfter(EMPTY, ttl, ms), LastInstant(ms, t))
  {
    if ms != [] {
      var n := |ms| - 1;
      AgreesAlways(ttl, ms[..n], t);
      AgreementStep(After(EMPTY, ttl, ms[..n]), RefAfter(EMPTY, ttl, ms[..n]), ttl, LastInstant(ms[..n], t), ms[n]);
    }
  }

  /** Purging is unobservable: after any operations, Issue, Active and successful Rotate
      behave as in a store that never deletes.  Only marking a dead token, and which of
      the two refusals a Rotate gives, may differ. */
  lemma {:induction false} PurgingIsUnobservable(ttl: int, ms: seq<Move>, t: int, mv: Move)
    requires Legal(EMPTY, ttl, ms, t) && LastInstant(ms, t) <= mv.from <= mv.to
    ensures var s, ref := After(EMPTY, ttl, ms), RefAfter(EMPTY, ttl, ms);
            && (Observed(mv.event) ==> (Enabled(s, mv) <==> RefEnabled(ref, mv)))
            && (Enabled(s, mv) ==> RefEnabled(ref, mv.(event := RefEvent(ref, mv))) && Alike(ref, mv, RefEvent(ref, mv)))
  {
    var s, ref := After(EMPTY, ttl, ms), RefAfter(EMPTY, ttl, ms);
    AgreesAlways(ttl, ms, t);
    if Observed(mv.event) {
      SameObservations(s, ref, LastInstant(ms, t), mv);
    }
    if Enabled(s, mv) {
      RefAnswersAlike(s, ref, LastInstant(ms, t), mv);
    }
  }
}
