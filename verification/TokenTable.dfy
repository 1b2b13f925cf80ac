/** The boot-token table: what one store operation may do to it. */
module TokenTable {
  import opened Wrappers

  datatype Row = Row(id: nat, mac: string, expiresAt: int, used: bool)

  // Rows are keyed by token value, on which the table has a unique index.
  type Table = map<string, Row>

  /** The table together with its history: every value ever created, the chains of rotations,
      each under the value it was issued with, and every row id ever used. */
  datatype Store = Store(rows: Table, root: map<string, string>, chains: map<string, seq<string>>, ids: set<nat>)

  const EMPTY := Store(map[], map[], map[], {})

  /** Value and id are fresh UUIDs. */
  predicate FreshRow(s: Store, x: string, id: nat) {
    x !in s.root && id !in s.ids
  }

  function Purge(rows: Table, t: int): Table {
    map x | x in rows && rows[x].expiresAt > t :: rows[x]
  }

  predicate Usable(rows: Table, mac: string, x: string, t: int) {
    x in rows && rows[x].mac == mac && !rows[x].used && rows[x].expiresAt > t
  }

  /** Latest expiry first, then smallest id. */
  predicate NotAfter(a: Row, b: Row) {
    a.expiresAt > b.expiresAt || (a.expiresAt == b.expiresAt && a.id <= b.id)
  }

  /** What the query for the active token of `mac` may answer. */
  ghost predicate ActiveAnswer(rows: Table, mac: string, t: int, answer: Option<string>) {
    match answer
    case Some(x) => Usable(rows, mac, x, t) && forall y | Usable(rows, mac, y, t) :: NotAfter(rows[x], rows[y])
    case None => forall y :: !Usable(rows, mac, y, t)
  }

  predicate Rotatable(rows: Table, mac: string, x: string, t: int) {
    x in rows && rows[x].mac == mac && rows[x].expiresAt > t
  }

  // Operations ----------------------------------------------------------------------
  //
  // An operation reads the clock first at `from`, to purge, and then at `to`, to decide.

  datatype Event =
    | Issued(mac: string, token: string, id: nat)
    | ActiveAsked(mac: string, answer: Option<string>)
    | MarkedUsed(token: string)
    | MarkRefused(token: string)
    | Rotated(mac: string, previous: string, token: string, id: nat)
    | RotateNotFound(mac: string, previous: string)
    | RotateExpired(mac: string, previous: string)
    | PurgedOnly   // an Issue or Active whose statement after the purge failed
    | NoEffect     // refused input, or a failure that leaves the table as it was

  datatype Move = Move(from: int, to: int, event: Event)

  ghost predicate Enabled(s: Store, mv: Move) {
    match mv.event
    case Issued(_, x, id) => FreshRow(s, x, id)
    case ActiveAsked(mac, answer) => ActiveAnswer(Purge(s.rows, mv.from), mac, mv.to, answer)
    case MarkedUsed(x) => x in s.rows
    case MarkRefused(x) => x !in s.rows
    case Rotated(mac, previous, x, id) => FreshRow(s, x, id) && Rotatable(Purge(s.rows, mv.from), mac, previous, mv.to)
    case RotateNotFound(mac, previous) => !(previous in Purge(s.rows, mv.from) && s.rows[previous].mac == mac)
    case RotateExpired(mac, previous) =>
      previous in Purge(s.rows, mv.from) && s.rows[previous].mac == mac && s.rows[previous].expiresAt <= mv.to
    case _ => true
  }

  function MarkRow(rows: Table, x: string): Table
    requires x in rows
  {
    rows[x := rows[x].(used := true)]
  }

  /** Expire and mark the previous row, and add its replacement. */
  function RotateRow(rows: Table, previous: string, x: string, row: Row, now: int): Table
    requires previous in rows
  {
    rows[previous := rows[previous].(used := true, expiresAt := now)][x := row]
  }

  /** Record `x` as the newest token of the chain `previous` belongs to. */
  function Replace(s: Store, rows: Table, previous: string, x: string, id: nat): Store {
    var r := if previous in s.root then s.root[previous] else previous;
    var chain := if r in s.chains then s.chains[r] else [];
    Store(rows, s.root[x := r], s.chains[r := chain + [x]], s.ids + {id})
  }

  function Apply(s: Store, ttl: int, mv: Move): Store {
    match mv.event
    case Issued(mac, x, id) =>
      Store(Purge(s.rows, mv.from)[x := Row(id, mac, mv.to + ttl, false)], s.root[x := x], s.chains[x := [x]], s.ids + {id})
    case ActiveAsked(_, _) => s.(rows := Purge(s.rows, mv.from))
    case MarkedUsed(x) => if x in s.rows then s.(rows := MarkRow(s.rows, x)) else s
    case Rotated(mac, previous, x, id) =>
      var rows := Purge(s.rows, mv.from);
      if previous in rows then Replace(s, RotateRow(rows, previous, x, Row(id, mac, mv.to + ttl, false), mv.to), previous, x, id) else s
    case PurgedOnly => s.(rows := Purge(s.rows, mv.from))
    case _ => s
  }

  function After(s: Store, ttl: int, ms: seq<Move>): Store {
    if ms == [] then s else Apply(After(s, ttl, ms[..|ms| - 1]), ttl, ms[|ms| - 1])
  }

  /** The operations can happen one after the other from `s` at instants not before `t`. */
  ghost predicate Legal(s: Store, ttl: int, ms: seq<Move>, t: int) {
    ms == [] ||
    var n := |ms| - 1;
    && Legal(s, ttl, ms[..n], t)
    && LastInstant(ms[..n], t) <= ms[n].from <= ms[n].to
    && Enabled(After(s, ttl, ms[..n]), ms[n])
  }

  function LastInstant(ms: seq<Move>, t: int): int {
    if ms == [] then t else ms[|ms| - 1].to
  }

  lemma {:induction false} LegalPrefix(s: Store, ttl: int, ms: seq<Move>, t: int, k: nat)
    requires Legal(s, ttl, ms, t) && k <= |ms|
    ensures Legal(s, ttl, ms[..k], t) && LastInstant(ms[..k], t) <= LastInstant(ms, t)
    decreases |ms|
  {
    if k < |ms| {
      assert ms[..|ms| - 1][..k] == ms[..k];
      LegalPrefix(s, ttl, ms[..|ms| - 1], t, k);
    } else {
      assert ms[..k] == ms;
    }
  }

  lemma LegalAt(s: Store, ttl: int, ms: seq<Move>, t: int, i: nat)
    requires Legal(s, ttl, ms, t) && i < |ms|
    ensures LastInstant(ms[..i], t) <= ms[i].from <= ms[i].to
    ensures Enabled(After(s, ttl, ms[..i]), ms[i])
    ensures After(s, ttl, ms[..i + 1]) == Apply(After(s, ttl, ms[..i]), ttl, ms[i])
  {
    LegalPrefix(s, ttl, ms, t, i + 1);
    assert ms[..i + 1][..i] == ms[..i];
  }

  lemma {:induction false} LegalExtends(s: Store, ttl: int, ms: seq<Move>, t: int, mv: Move)
    ensures After(s, ttl, ms + [mv]) == Apply(After(s, ttl, ms), ttl, mv)
    ensures Legal(s, ttl, ms + [mv], t) <==>
            && Legal(s, ttl, ms, t)
            && LastInstant(ms, t) <= mv.from <= mv.to
            && Enabled(After(s, ttl, ms), mv)
  {
    assert (ms + [mv])[..|ms|] == ms;
  }

  lemma {:induction false} OneMove(s: Store, ttl: int, t: int, a: Move)
    requires t <= a.from <= a.to && Enabled(s, a)
    ensures Legal(s, ttl, [a], t) && After(s, ttl, [a]) == Apply(s, ttl, a) && LastInstant([a], t) == a.to
  {
    LegalExtends(s, ttl, [], t, a);
    assert [] + [a] == [a];
  }

  lemma {:induction false} TwoMoves(s: Store, ttl: int, t: int, a: Move, b: Move)
    requires t <= a.from <= a.to <= b.from <= b.to && Enabled(s, a) && Enabled(Apply(s, ttl, a), b)
    ensures Legal(s, ttl, [a, b], t) && After(s, ttl, [a, b]) == Apply(Apply(s, ttl, a), ttl, b)
    ensures LastInstant([a, b], t) == b.to
  {
    OneMove(s, ttl, t, a);
    LegalExtends(s, ttl, [a], t, b);
    assert [a] + [b] == [a, b];
  }
}
