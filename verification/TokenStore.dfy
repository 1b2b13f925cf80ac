/** The boot-token store and the boot request that renders a token from it. */
module TokenStore {
  import opened Wrappers
  import opened Text
  import opened MonotoneClock
  import opened TokenTable
  import opened TokenRequests

  const DEFAULT_TTL: int := 300

  datatype TokenError = MacRequired | OldTokenRequired | TokenRequired | TokenNotFound | TokenExpired | Database

  datatype Result<+T> = Ok(value: T) | Err(error: TokenError)

  datatype Token = Token(id: nat, mac: string, value: string, expiresAt: int, used: bool)

  function ToToken(x: string, row: Row): Token {
    Token(row.id, row.mac, x, row.expiresAt, row.used)
  }

  /** Which statements of an operation fail. */
  datatype Faults = Faults(purge: bool, lookup: bool, update: bool, create: bool, commit: bool)

  const NO_FAULTS := Faults(false, false, false, false, false)

  /** A token value is the text of a UUID: not empty, no space around it. */
  predicate Clean(x: string) { x != "" && !IsSpace(x[0]) && !IsSpace(x[|x| - 1]) }

  lemma CleanIsTrimmed(x: string)
    requires Clean(x)
    ensures TrimSpace(x) == x
  {
  }

  function NormalMac(mac: string): string { TrimSpace(ToLower(mac)) }

  /** MACs that differ in letter case only are one MAC to the store. */
  lemma {:induction false} CaseDoesNotMatter(a: string, b: string)
    requires |a| == |b| && forall i | 0 <= i < |a| :: SameLetter(a[i], b[i])
    ensures NormalMac(a) == NormalMac(b)
  {
    EqualFoldIffSameLetters(a, b);
  }

  lemma {:induction false} MiddleHasNoCapitals(mac: string, before: string, m: string, after: string, i: nat)
    requires ToLower(mac) == before + m + after && i < |m|
    ensures !('A' <= m[i] <= 'Z')
  {
    assert m[i] == (before + m + after)[|before| + i] == ToLower(mac)[|before| + i];
    LoweredHasNoCapitals(mac);
  }

  /** The MAC stored is the given one lowered and without its surrounding space: no capital
      letter is left in it, and no space on either side. */
  lemma {:induction false} NormalMacIsNormal(mac: string) returns (before: string, after: string)
    ensures IsTrimOf(ToLower(mac), NormalMac(mac), before, after)
    ensures forall i | 0 <= i < |NormalMac(mac)| :: !('A' <= NormalMac(mac)[i] <= 'Z')
  {
    before, after := TrimSpaceTakesSpace(ToLower(mac));
    var m := NormalMac(mac);
    forall i | 0 <= i < |m| ensures !('A' <= m[i] <= 'Z') {
      MiddleHasNoCapitals(mac, before, m, after, i);
    }
  }

  /** Outside `news` the rows left are exactly those that expire after `t`, untouched. */
  ghost predicate PurgedBut(before: Table, after: Table, t: int, news: set<string>) {
    forall x | x !in news ::
      && (x in after <==> x in before && before[x].expiresAt > t)
      && (x in after ==> after[x] == before[x])
  }

  /** An unused token of the MAC that has not expired at `now`. */
  predicate CanBoot(row: Row, mac: string, now: int) {
    row.mac == mac && !row.used && row.expiresAt > now
  }

  /** `tok` is a row of the table, can boot the MAC, and no other row that can expires later. */
  ghost predicate BootsFirst(rows: Table, mac: string, now: int, tok: Token) {
    && tok.value in rows && rows[tok.value] == Row(tok.id, tok.mac, tok.expiresAt, tok.used)
    && tok.mac == mac && !tok.used && tok.expiresAt > now
    && forall y | y in rows && CanBoot(rows[y], mac, now) ::
         rows[y].expiresAt < tok.expiresAt || (rows[y].expiresAt == tok.expiresAt && tok.id <= rows[y].id)
  }

  lemma {:induction false} AnswerBootsFirst(rows: Table, mac: string, now: int, answer: Option<string>)
    requires ActiveAnswer(rows, mac, now, answer)
    ensures answer.Some? ==> answer.value in rows && BootsFirst(rows, mac, now, ToToken(answer.value, rows[answer.value]))
    ensures answer.None? ==> forall y | y in rows :: !CanBoot(rows[y], mac, now)
  {
    forall y | y in rows && CanBoot(rows[y], mac, now) ensures Usable(rows, mac, y, now) {
    }
  }

  /** The old token of the MAC, alive at the move's end, is marked and expired, the new one is
      there for a lifetime, and what has not expired of the rest is untouched. */
  ghost predicate Exchanged(before: Table, after: Table, m: string, x: string, id: nat, value: string, mv: Move, ttl: int) {
    && x in before && before[x].mac == m && before[x].expiresAt > mv.to && x != value
    && x in after && after[x] == before[x].(used := true, expiresAt := mv.to)
    && value in after && after[value] == Row(id, m, mv.to + ttl, false)
    && PurgedBut(before, after, mv.from, {x, value})
  }

  class TokenStore {
    const clock: Clock
    const ttl: int
    var rows: Table
    ghost var root: map<string, string>            // history: every value ever created,
    ghost var chains: map<string, seq<string>>     // the rotations,
    ghost var ids: set<nat>                        // and every row id ever used

    ghost function View(): Store
      reads this
    {
      Store(rows, root, chains, ids)
    }

    ghost predicate Valid()
      reads this
    {
      clock.Valid() && rows.Keys <= root.Keys && forall x | x in root :: Clean(x)
    }

    /** A lifetime that is not positive is replaced by the default one. */
    constructor (ttl: int, clock: Clock)
      requires clock.Valid()
      ensures Valid()
      ensures View() == EMPTY && this.clock == clock
      ensures this.ttl == if ttl <= 0 then DEFAULT_TTL else ttl
    {
      this.clock, this.ttl := clock, if ttl <= 0 then DEFAULT_TTL else ttl;
      rows, root, chains, ids := map[], map[], map[], {};
    }

    /** The call took the table from `before` by `mv`, within the call's own clock reads. */
    twostate predicate Did(mv: Move)
      reads this, clock
    {
      && old(clock.Now()) <= mv.from <= mv.to <= clock.Now()
      && Enabled(old(View()), mv)
      && View() == Apply(old(View()), ttl, mv)
    }

    method PurgeExpired(fails: bool) returns (ok: bool, ghost at: int)
      requires clock.Valid()
      modifies this`rows, clock
      ensures ok == !fails && at == old(clock.Now()) <= clock.Now()
      ensures rows == if ok then Purge(old(rows), at) else old(rows)
      ensures if ok then PurgedBut(old(rows), rows, at, {}) else rows == old(rows)
    {
      var now := clock.Read();
      ok, at := !fails, now;
      if ok {
        rows := map x | x in rows && rows[x].expiresAt > now :: rows[x];
      }
    }

    /** `id` and `value` are fresh UUIDs. */
    method Issue(mac: string, id: nat, value: string, faults: Faults) returns (r: Result<Token>, ghost mv: Move)
      requires Valid() && FreshRow(View(), value, id) && Clean(value)
      modifies this, clock
      ensures Valid() && Did(mv)
      ensures match r
              case Ok(tok) =>
                && mv.event == Issued(NormalMac(mac), value, id)
                && tok == Token(id, NormalMac(mac), value, mv.to + ttl, false)
                && value in rows && tok == ToToken(value, rows[value])
              case Err(e) => (e == MacRequired <==> NormalMac(mac) == "") && (mv.event.NoEffect? || (e == Database && mv.event.PurgedOnly?))
      ensures r.Ok? <==> NormalMac(mac) != "" && !faults.purge && !faults.create
      ensures r.Ok? ==>
                && PurgedBut(old(rows), rows, mv.from, {value})
                && value in rows && rows[value] == Row(id, NormalMac(mac), mv.to + ttl, false)
    {
      var m := NormalMac(mac);
      if m == "" {
        return Err(MacRequired), Move(clock.Now(), clock.Now(), NoEffect);
      }
      var purged, at := PurgeExpired(faults.purge);
      if !purged {
        return Err(Database), Move(at, at, NoEffect);
      }
      var now := clock.Read();
      if faults.create {
        return Err(Database), Move(at, now, PurgedOnly);
      }
      var row := Row(id, m, now + ttl, false);
      rows := rows[value := row];
      root, chains, ids := root[value := value], chains[value := [value]], ids + {id};
      r, mv := Ok(ToToken(value, row)), Move(at, now, Issued(m, value, id));
      IssueApplies(old(View()), ttl, mv, rows, View());
    }

    static lemma IssueApplies(s: Store, ttl: int, mv: Move, rows: Table, s': Store)
      requires mv.event.Issued? && FreshRow(s, mv.event.token, mv.event.id)
      requires var e := mv.event;
               && rows == Purge(s.rows, mv.from)[e.token := Row(e.id, e.mac, mv.to + ttl, false)]
               && s' == Store(rows, s.root[e.token := e.token], s.chains[e.token := [e.token]], s.ids + {e.id})
      ensures Enabled(s, mv) && Apply(s, ttl, mv) == s'
    {
    }

    /** The row the query for an active token of `mac` returns first. */
    method FirstActive(mac: string, now: int) returns (answer: Option<string>)
      ensures ActiveAnswer(rows, mac, now, answer)
      ensures answer.Some? ==> answer.value in rows && BootsFirst(rows, mac, now, ToToken(answer.value, rows[answer.value]))
      ensures answer.None? ==> forall y | y in rows :: !CanBoot(rows[y], mac, now)
    {
      answer := None;
      var pending := rows.Keys;
      while pending != {}
        invariant pending <= rows.Keys
        invariant answer.None? ==> forall y | Usable(rows, mac, y, now) :: y in pending
        invariant answer.Some? ==> Usable(rows, mac, answer.value, now)
        invariant answer.Some? ==> forall y | Usable(rows, mac, y, now) && y !in pending :: NotAfter(rows[answer.value], rows[y])
        decreases |pending|
      {
        var x :| x in pending;
        pending := pending - {x};
        if Usable(rows, mac, x, now) && (answer.None? || !NotAfter(rows[answer.value], rows[x])) {
          answer := Some(x);
        }
      }
      AnswerBootsFirst(rows, mac, now, answer);
    }

    method Active(mac: string, faults: Faults) returns (r: Result<Option<Token>>, ghost mv: Move)
      requires Valid()
      modifies this, clock
      ensures Valid() && Did(mv)
      ensures match r
              case Ok(None) => mv.event == ActiveAsked(NormalMac(mac), None)
              case Ok(Some(tok)) =>
                mv.event == ActiveAsked(NormalMac(mac), Some(tok.value)) && tok.value in rows && tok == ToToken(tok.value, rows[tok.value])
              case Err(e) => (e == MacRequired <==> NormalMac(mac) == "") && (mv.event.NoEffect? || (e == Database && mv.event.PurgedOnly?))
      ensures r.Ok? <==> NormalMac(mac) != "" && !faults.purge && !faults.lookup
      ensures r.Ok? ==> PurgedBut(old(rows), rows, mv.from, {})
      ensures r.Ok? && r.value.Some? ==> BootsFirst(rows, NormalMac(mac), mv.to, r.value.value)
      ensures r.Ok? && r.value.None? ==> forall y | y in rows :: !CanBoot(rows[y], NormalMac(mac), mv.to)
    {
      var m := NormalMac(mac);
      if m == "" {
        return Err(MacRequired), Move(clock.Now(), clock.Now(), NoEffect);
      }
      r, mv := AskActive(m, faults);
    }

    method AskActive(m: string, faults: Faults) returns (r: Result<Option<Token>>, ghost mv: Move)
      requires Valid()
      modifies this, clock
      ensures Valid() && Did(mv)
      ensures match r
              case Ok(None) => mv.event == ActiveAsked(m, None)
              case Ok(Some(tok)) => mv.event == ActiveAsked(m, Some(tok.value)) && tok.value in rows && tok == ToToken(tok.value, rows[tok.value])
              case Err(e) => e == Database && (mv.event.NoEffect? || mv.event.PurgedOnly?)
      ensures r.Ok? <==> !faults.purge && !faults.lookup
      ensures r.Ok? ==> PurgedBut(old(rows), rows, mv.from, {})
      ensures r.Ok? && r.value.Some? ==> BootsFirst(rows, m, mv.to, r.value.value)
      ensures r.Ok? && r.value.None? ==> forall y | y in rows :: !CanBoot(rows[y], m, mv.to)
    {
      var purged, at := PurgeExpired(faults.purge);
      if !purged {
        return Err(Database), Move(at, at, NoEffect);
      }
      var now := clock.Read();
      if faults.lookup {
        return Err(Database), Move(at, now, PurgedOnly);
      }
      var answer := FirstActive(m, now);
      mv := Move(at, now, ActiveAsked(m, answer));
      r := if answer.None? then Ok(None) else Ok(Some(ToToken(answer.value, rows[answer.value])));
    }

    method MarkUsed(tokenValue: string, faults: Faults) returns (r: Result<()>, ghost mv: Move)
      requires Valid()
      modifies this
      ensures Valid() && Did(mv)
      ensures match r
              case Ok(_) => mv.event == MarkedUsed(TrimSpace(tokenValue))
              case Err(TokenNotFound) => mv.event == MarkRefused(TrimSpace(tokenValue))
              case Err(e) => mv.event.NoEffect? && (e == TokenRequired <==> TrimSpace(tokenValue) == "")
      ensures r.Err? && r.error == Database <==> TrimSpace(tokenValue) != "" && faults.update
      ensures r.Err? ==> r.error.TokenRequired? || r.error.TokenNotFound? || r.error.Database?
      ensures r.Ok? ==>
                && TrimSpace(tokenValue) in old(rows)
                && rows == old(rows)[TrimSpace(tokenValue) := old(rows)[TrimSpace(tokenValue)].(used := true)]
      ensures r.Err? ==> rows == old(rows)
      ensures r == Err(TokenNotFound) <==> TrimSpace(tokenValue) != "" && !faults.update && TrimSpace(tokenValue) !in old(rows)
    {
      var x := TrimSpace(tokenValue);
      mv := Move(clock.Now(), clock.Now(), NoEffect);
      if x == "" {
        return Err(TokenRequired), mv;
      }
      if faults.update {
        return Err(Database), mv;
      }
      if x !in rows {
        return Err(TokenNotFound), Move(clock.Now(), clock.Now(), MarkRefused(x));
      }
      rows := rows[x := rows[x].(used := true)];
      r, mv := Ok(()), Move(clock.Now(), clock.Now(), MarkedUsed(x));
    }

    /** The token is there, of this MAC, and alive at `t`. */
    static predicate ExpiresAfter(rows: Table, m: string, x: string, t: int) {
      x in rows && rows[x].mac == m && t < rows[x].expiresAt
    }

    /** The token of this MAC is alive at the first clock read and expired at the second. */
    static predicate ExpiresBetween(rows: Table, m: string, x: string, first: int, second: int) {
      ExpiresAfter(rows, m, x, first) && !ExpiresAfter(rows, m, x, second)
    }

    /** The first half of a rotation: purge, then find the row and check that it is alive.
        An error leaves the purge in place. */
    method LockRow(m: string, x: string, faults: Faults) returns (r: Result<int>, ghost mv: Move)
      requires Valid()
      modifies this`rows, clock
      ensures old(clock.Now()) <= mv.from <= mv.to <= clock.Now()
      ensures match r
              case Ok(now) => now == mv.to && rows == Purge(old(rows), mv.from) && Rotatable(rows, m, x, now)
              case Err(TokenNotFound) => mv.event == RotateNotFound(m, x) && Enabled(old(View()), mv)
              case Err(TokenExpired) => mv.event == RotateExpired(m, x) && Enabled(old(View()), mv)
              case Err(e) => e == Database && mv.event == NoEffect && (faults.purge || faults.lookup)
      ensures r == Err(TokenExpired) <==> !faults.lookup && ExpiresBetween(old(rows), m, x, mv.from, mv.to)
      ensures faults == NO_FAULTS ==> (r.Ok? <==> ExpiresAfter(old(rows), m, x, mv.to))
      ensures faults == NO_FAULTS ==> (r == Err(TokenNotFound) <==> !ExpiresAfter(old(rows), m, x, mv.from))
    {
      var purged, at := PurgeExpired(faults.purge);
      if !purged {
        return Err(Database), Move(at, at, NoEffect);
      }
      var now := clock.Read();
      if faults.lookup {
        return Err(Database), Move(at, now, NoEffect);
      }
      if x !in rows || rows[x].mac != m {
        return Err(TokenNotFound), Move(at, now, RotateNotFound(m, x));
      }
      if rows[x].expiresAt <= now {
        return Err(TokenExpired), Move(at, now, RotateExpired(m, x));
      }
      r, mv := Ok(now), Move(at, now, NoEffect);
    }

    /** The second half: expire the row and insert its replacement. */
    method Exchange(m: string, x: string, id: nat, value: string, now: int, faults: Faults) returns (r: Result<Token>)
      requires x in rows
      modifies this`rows
      ensures r == if faults.update || faults.create || faults.commit then Err(Database)
                   else Ok(Token(id, m, value, now + ttl, false))
      ensures r.Ok? ==> rows == RotateRow(old(rows), x, value, Row(id, m, now + ttl, false), now)
      ensures r.Ok? ==> rows == old(rows)[x := old(rows)[x].(used := true, expiresAt := now)][value := Row(id, m, now + ttl, false)]
    {
      if faults.update {
        return Err(Database);
      }
      rows := rows[x := rows[x].(used := true, expiresAt := now)];
      if faults.create {
        return Err(Database);
      }
      var replacement := Row(id, m, now + ttl, false);
      rows := rows[value := replacement];
      if faults.commit {
        return Err(Database);
      }
      r := Ok(ToToken(value, replacement));
    }

    static lemma RotateApplies(s: Store, ttl: int, mv: Move, rows: Table)
      requires mv.event.Rotated? && FreshRow(s, mv.event.token, mv.event.id)
      requires var e := mv.event;
               && Rotatable(Purge(s.rows, mv.from), e.mac, e.previous, mv.to)
               && rows == RotateRow(Purge(s.rows, mv.from), e.previous, e.token, Row(e.id, e.mac, mv.to + ttl, false), mv.to)
      ensures Enabled(s, mv) && Apply(s, ttl, mv) == Replace(s, rows, mv.event.previous, mv.event.token, mv.event.id)
      ensures rows.Keys <= s.rows.Keys + {mv.event.token}
    {
    }

    static lemma {:induction false} ReplaceAdds(s: Store, rows: Table, previous: string, x: string, id: nat)
      ensures var s' := Replace(s, rows, previous, x, id);
              s'.rows == rows && s'.root.Keys == s.root.Keys + {x}
    {
    }

    /** What each outcome of a rotation is as an event. */
    static function RotateEvent(r: Result<Token>, m: string, x: string): Event {
      match r
      case Ok(tok) => Rotated(m, x, tok.value, tok.id)
      case Err(TokenNotFound) => RotateNotFound(m, x)
      case Err(TokenExpired) => RotateExpired(m, x)
      case Err(_) => NoEffect
    }

    /** The statements of the rotation; an error may leave the table half changed. */
    method RotateInTx(m: string, x: string, id: nat, value: string, faults: Faults) returns (r: Result<Token>, ghost mv: Move)
      requires Valid() && FreshRow(View(), value, id)
      modifies this`rows, clock
      ensures old(clock.Now()) <= mv.from <= mv.to <= clock.Now()
      ensures mv.event == RotateEvent(r, m, x) && Enabled(old(View()), mv)
      ensures r.Ok? ==> r.value == Token(id, m, value, mv.to + ttl, false)
      ensures r.Ok? ==> Apply(old(View()), ttl, mv) == Replace(old(View()), rows, x, value, id)
      ensures r.Ok? ==> value in rows && ToToken(value, rows[value]) == r.value
      ensures r.Ok? ==> x in old(rows) && rows.Keys <= old(rows).Keys + {value}
      ensures r.Ok? ==> Exchanged(old(rows), rows, m, x, id, value, mv, ttl)
      ensures r.Err? ==> r.error in {TokenNotFound, TokenExpired, Database}
      ensures faults == NO_FAULTS ==> r != Err(Database)
      ensures r == Err(TokenExpired) <==> !faults.lookup && ExpiresBetween(old(rows), m, x, mv.from, mv.to)
      ensures faults == NO_FAULTS ==> (r.Ok? <==> ExpiresAfter(old(rows), m, x, mv.to))
      ensures faults == NO_FAULTS ==> (r == Err(TokenNotFound) <==> !ExpiresAfter(old(rows), m, x, mv.from))
    {
      var locked;
      locked, mv := LockRow(m, x, faults);
      if locked.Err? {
        return Err(locked.error), mv;
      }
      r := Exchange(m, x, id, value, locked.value, faults);
      if r.Ok? {
        mv := mv.(event := Rotated(m, x, value, id));
        RotateApplies(old(View()), ttl, mv, rows);
      } else {
        mv := mv.(event := NoEffect);
      }
    }

    /** One transaction: whatever goes wrong, the table is rolled back, purge included.  With no
        failing statement the token's expiry alone decides: done when it lies after the second
        clock read, expired when between the two, not found when before both. */
    method Rotate(mac: string, oldToken: string, id: nat, value: string, faults: Faults) returns (r: Result<Token>, ghost mv: Move)
      requires Valid() && FreshRow(View(), value, id) && Clean(value)
      modifies this, clock
      ensures Valid() && Did(mv)
      ensures r.Err? ==> View() == old(View())
      ensures mv.event == RotateEvent(r, NormalMac(mac), TrimSpace(oldToken))
      ensures r.Ok? ==> r.value == Token(id, NormalMac(mac), value, mv.to + ttl, false)
      ensures r.Ok? ==> value in rows && r.value == ToToken(value, rows[value])
      ensures r.Ok? ==> Exchanged(old(rows), rows, NormalMac(mac), TrimSpace(oldToken), id, value, mv, ttl)
      ensures faults == NO_FAULTS ==> r != Err(Database)
      ensures r == Err(TokenExpired) <==>
                !faults.lookup && ExpiresBetween(old(rows), NormalMac(mac), TrimSpace(oldToken), mv.from, mv.to)
      ensures faults == NO_FAULTS && NormalMac(mac) != "" && TrimSpace(oldToken) != "" ==>
                && (r.Ok? <==> ExpiresAfter(old(rows), NormalMac(mac), TrimSpace(oldToken), mv.to))
                && (r == Err(TokenNotFound) <==> !ExpiresAfter(old(rows), NormalMac(mac), TrimSpace(oldToken), mv.from))
      ensures r == Err(MacRequired) <==> NormalMac(mac) == ""
      ensures r == Err(OldTokenRequired) <==> NormalMac(mac) != "" && TrimSpace(oldToken) == ""
    {
      var m, x := NormalMac(mac), TrimSpace(oldToken);
      mv := Move(clock.Now(), clock.Now(), NoEffect);
      if m == "" {
        return Err(MacRequired), mv;
      }
      if x == "" {
        return Err(OldTokenRequired), mv;
      }
      r, mv := Transact(m, x, id, value, faults);
    }

    /** The transaction: commit the statements or roll them back. */
    method Transact(m: string, x: string, id: nat, value: string, faults: Faults) returns (r: Result<Token>, ghost mv: Move)
      requires Valid() && FreshRow(View(), value, id) && Clean(value)
      modifies this, clock
      ensures Valid() && old(clock.Now()) <= mv.from <= mv.to <= clock.Now()
      ensures mv.event == RotateEvent(r, m, x) && Enabled(old(View()), mv)
      ensures View() == Apply(old(View()), ttl, mv)
      ensures r.Err? ==> View() == old(View()) && r.error in {TokenNotFound, TokenExpired, Database}
      ensures r.Ok? ==> r.value == Token(id, m, value, mv.to + ttl, false)
      ensures r.Ok? ==> value in rows && r.value == ToToken(value, rows[value])
      ensures r.Ok? ==> Exchanged(old(rows), rows, m, x, id, value, mv, ttl)
      ensures faults == NO_FAULTS ==> r != Err(Database)
      ensures r == Err(TokenExpired) <==> !faults.lookup && ExpiresBetween(old(rows), m, x, mv.from, mv.to)
      ensures faults == NO_FAULTS ==> (r.Ok? <==> ExpiresAfter(old(rows), m, x, mv.to))
      ensures faults == NO_FAULTS ==> (r == Err(TokenNotFound) <==> !ExpiresAfter(old(rows), m, x, mv.from))
    {
      var saved := rows;
      r, mv := RotateInTx(m, x, id, value, faults);
      if r.Err? {
        rows := saved;
        assert View() == old(View());
      } else {
        ghost var rotated := Replace(old(View()), rows, x, value, id);
        ReplaceAdds(old(View()), rows, x, value, id);
        root, chains, ids := rotated.root, rotated.chains, rotated.ids;
        assert View() == rotated;
      }
    }
  }

  /** The boot endpoint: one request renders at most one token. */
  class BootApi {
    const tokens: TokenStore

    constructor (tokens: TokenStore)
      ensures this.tokens == tokens
    {
      this.tokens := tokens;
    }

    /** A kickstart or unattend request: it issues a token for the machine found, if any, and
        renders it, without marking it used. */
    method HandleInstall(machineMac: Option<string>, id: nat, value: string, issuing: Faults, renders: bool)
      returns (rendered: Option<string>, ghost ms: seq<Move>)
      requires tokens.Valid() && FreshRow(tokens.View(), value, id) && Clean(value)
      modifies tokens, tokens.clock
      ensures tokens.Valid() && old(tokens.clock.Now()) <= tokens.clock.Now()
      ensures Legal(old(tokens.View()), tokens.ttl, ms, old(tokens.clock.Now()))
      ensures tokens.View() == After(old(tokens.View()), tokens.ttl, ms)
      ensures issuing == NO_FAULTS ==>
                (rendered.Some? <==> machineMac.Some? && NormalMac(machineMac.value) != "" && renders)
      ensures rendered.Some? ==>
                && machineMac.Some? && Proper(Install(rendered.value, ms))
                && rendered.value in tokens.rows && !tokens.rows[rendered.value].used
                && tokens.rows[rendered.value].mac == NormalMac(machineMac.value)
    {
      if machineMac.None? {
        return None, [];
      }
      ghost var s, t := tokens.View(), tokens.clock.Now();
      var issued, mv := tokens.Issue(machineMac.value, id, value, issuing);
      OneMove(s, tokens.ttl, t, mv);
      ms := [mv];
      rendered := if issued.Ok? && renders then Some(issued.value.value) else None;
    }

    /** A token for the machine: an active one, or else one issued now; `None` on an error.
        `ms` are the store operations made. */
    method ObtainToken(mac: string, id: nat, value: string, asking: Faults, issuing: Faults)
      returns (x: Option<string>, ghost ms: seq<Move>)
      requires tokens.Valid() && FreshRow(tokens.View(), value, id) && Clean(value)
      modifies tokens, tokens.clock
      ensures tokens.Valid() && old(tokens.clock.Now()) <= tokens.clock.Now()
      ensures Legal(old(tokens.View()), tokens.ttl, ms, old(tokens.clock.Now()))
      ensures tokens.View() == After(old(tokens.View()), tokens.ttl, ms)
      ensures LastInstant(ms, old(tokens.clock.Now())) <= tokens.clock.Now()
      ensures asking == issuing == NO_FAULTS ==> (x.Some? <==> NormalMac(mac) != "")
      ensures x.Some? ==> x.value in tokens.rows && Obtains(ms, NormalMac(mac), x.value)
      ensures x.Some? ==> tokens.rows[x.value].mac == NormalMac(mac) && !tokens.rows[x.value].used
    {
      ghost var s, t := tokens.View(), tokens.clock.Now();
      var active, asked := tokens.Active(mac, asking);
      OneMove(s, tokens.ttl, t, asked);
      ms := [asked];
      match active
      case Err(_) =>
        x := None;
      case Ok(Some(tok)) =>
        x := Some(tok.value);
      case Ok(None) =>
        var issued, mv := tokens.Issue(mac, id, value, issuing);
        TwoMoves(s, tokens.ttl, t, asked, mv);
        ms := [asked, mv];
        x := if issued.Ok? then Some(issued.value.value) else None;
    }

    /** `machineMac` is the machine found for the query, if any; `id` and `value` serve a
        token that has to be issued; `renders` says whether the template renders.  `ms` are
        the store operations made, in order. */
    method HandleIPXE(machineMac: Option<string>, id: nat, value: string, asking: Faults, issuing: Faults, marking: Faults, renders: bool)
      returns (rendered: Option<string>, ghost ms: seq<Move>)
      requires tokens.Valid() && FreshRow(tokens.View(), value, id) && Clean(value)
      modifies tokens, tokens.clock
      ensures tokens.Valid() && old(tokens.clock.Now()) <= tokens.clock.Now()
      ensures Legal(old(tokens.View()), tokens.ttl, ms, old(tokens.clock.Now()))
      ensures tokens.View() == After(old(tokens.View()), tokens.ttl, ms)
      ensures asking == issuing == marking == NO_FAULTS ==>
                (rendered.Some? <==> machineMac.Some? && NormalMac(machineMac.value) != "" && renders)
      ensures rendered.Some? ==> machineMac.Some? && Boots(ms, NormalMac(machineMac.value), rendered.value)
      ensures rendered.Some? ==>
                && rendered.value in tokens.rows && tokens.rows[rendered.value].used
                && tokens.rows[rendered.value].mac == NormalMac(machineMac.value)
    {
      if machineMac.None? {
        return None, [];
      }
      ghost var s, t := tokens.View(), tokens.clock.Now();
      var x;
      x, ms := ObtainToken(machineMac.value, id, value, asking, issuing);
      if x.None? {
        return None, ms;
      }
      rendered, ms := MarkAndRender(NormalMac(machineMac.value), x.value, marking, renders, s, t, ms);
    }

    /** Mark the token used and render it. */
    method MarkAndRender(mac: string, x: string, marking: Faults, renders: bool, ghost s: Store, ghost t: int, ghost ms: seq<Move>)
      returns (rendered: Option<string>, ghost ms': seq<Move>)
      requires tokens.Valid() && x in tokens.rows && tokens.rows[x].mac == mac && Obtains(ms, mac, x)
      requires Legal(s, tokens.ttl, ms, t) && tokens.View() == After(s, tokens.ttl, ms) && LastInstant(ms, t) <= tokens.clock.Now()
      modifies tokens
      ensures tokens.Valid()
      ensures Legal(s, tokens.ttl, ms', t) && tokens.View() == After(s, tokens.ttl, ms')
      ensures rendered == if !marking.update && renders then Some(x) else None
      ensures rendered.Some? ==> Boots(ms', mac, x) && x in tokens.rows && tokens.rows[x].used && tokens.rows[x].mac == mac
    {
      assert Clean(x);
      CleanIsTrimmed(x);
      var marked, mv := tokens.MarkUsed(x, marking);
      LegalExtends(s, tokens.ttl, ms, t, mv);
      ms' := ms + [mv];
      assert ms'[..|ms'| - 1] == ms;
      rendered := if marked.Ok? && renders then Some(x) else None;
    }
  }
}
