/** What the boot and installation requests render, over every sequence of requests. */
module TokenRequests {
  import opened Wrappers
  import opened TokenTable
  import opened TokenRuns

  /** `x` was created, and cannot be handed out by a boot request any more. */
  predicate Spent(s: Store, x: string) {
    x in s.root && (x in s.rows ==> s.rows[x].used)
  }

  /** Used never reverts to unused, and a purged value never comes back. */
  lemma SpentStep(s: Store, ttl: int, mv: Move, x: string)
    requires Enabled(s, mv) && Spent(s, x)
    ensures Spent(Apply(s, ttl, mv), x)
  {
  }

  lemma {:induction false} SpentAlways(s: Store, ttl: int, ms: seq<Move>, t: int, i: nat, x: string)
    requires Legal(s, ttl, ms, t) && i <= |ms| && Spent(After(s, ttl, ms[..i]), x)
    ensures Spent(After(s, ttl, ms), x)
    decreases |ms|
  {
    if i < |ms| {
      var n := |ms| - 1;
      assert ms[..n][..i] == ms[..i];
      SpentAlways(s, ttl, ms[..n], t, i, x);
      SpentStep(After(s, ttl, ms[..n]), ttl, ms[n], x);
    } else {
      assert ms[..i] == ms;
    }
  }

  /** The operations that provide `x`: find it active, or find nothing and issue it. */
  predicate Obtains(ms: seq<Move>, mac: string, x: string) {
    || (|ms| == 1 && ms[0].event == ActiveAsked(mac, Some(x)))
    || (|ms| == 2 && ms[0].event == ActiveAsked(mac, None)
        && ms[1].event.Issued? && ms[1].event.mac == mac && ms[1].event.token == x)
  }

  /** The operations of one boot request that renders `x`: obtain it and mark it used. */
  predicate Boots(ms: seq<Move>, mac: string, x: string) {
    ms != [] && Obtains(ms[..|ms| - 1], mac, x) && ms[|ms| - 1].event == MarkedUsed(x)
  }

  /** A value a boot request renders was not spent before it and is spent after it. */
  lemma BootSpends(s: Store, ttl: int, ms: seq<Move>, t: int, mac: string, x: string)
    requires Legal(s, ttl, ms, t) && Boots(ms, mac, x) && forall y | y in s.rows :: y in s.root
    ensures !Spent(s, x) && Spent(After(s, ttl, ms), x)
  {
    assert ms[..0] == [];
    LegalAt(s, ttl, ms, t, 0);
    LegalAt(s, ttl, ms, t, 1);
    if |ms| == 3 {
      LegalAt(s, ttl, ms, t, 2);
      assert ms[..3] == ms;
    } else {
      assert ms[..2] == ms;
    }
  }

  lemma {:induction false} AfterConcat(s: Store, ttl: int, a: seq<Move>, b: seq<Move>, t: int)
    requires Legal(s, ttl, a + b, t)
    ensures Legal(s, ttl, a, t) && Legal(After(s, ttl, a), ttl, b, LastInstant(a, t))
    ensures After(s, ttl, a + b) == After(After(s, ttl, a), ttl, b)
    ensures LastInstant(a + b, t) == LastInstant(b, LastInstant(a, t))
    decreases |b|
  {
    if b == [] {
      assert a + b == a;
    } else {
      var n := |b| - 1;
      assert a + b == (a + b[..n]) + [b[n]] && (a + b)[..|a + b| - 1] == a + b[..n];
      AfterConcat(s, ttl, a, b[..n], t);
    }
  }

  // Requests ----------------------------------------------------------------------------

  /** A request with its store operations: a boot request that renders a value, a kickstart
      or unattend request that renders the value it issued, or anything that renders none,
      failed requests and rotations among it. */
  datatype Request =
    | Boot(mac: string, value: string, ms: seq<Move>)
    | Install(value: string, ms: seq<Move>)
    | Other(ms: seq<Move>)

  predicate Proper(q: Request) {
    match q
    case Boot(mac, x, ms) => Boots(ms, mac, x)
    case Install(x, ms) => |ms| == 1 && ms[0].event.Issued? && ms[0].event.token == x
    case Other(_) => true
  }

  predicate Renders(q: Request, x: string) {
    !q.Other? && q.value == x
  }

  /** The store operations of the first `n` requests. */
  function Flat(qs: seq<Request>, n: nat): seq<Move>
    requires n <= |qs|
  {
    if n == 0 then [] else Flat(qs, n - 1) + qs[n - 1].ms
  }

  /** The store that request `n` meets. */
  function Meets(qs: seq<Request>, ttl: int, n: nat): Store
    requires n <= |qs|
  {
    After(EMPTY, ttl, Flat(qs, n))
  }

  ghost predicate Serving(qs: seq<Request>, ttl: int, t: int) {
    Legal(EMPTY, ttl, Flat(qs, |qs|), t) && forall i | 0 <= i < |qs| :: Proper(qs[i])
  }

  lemma {:induction false} LegalUpTo(qs: seq<Request>, ttl: int, t: int, n: nat, i: nat)
    requires i <= n <= |qs| && Legal(EMPTY, ttl, Flat(qs, n), t)
    ensures Legal(EMPTY, ttl, Flat(qs, i), t)
    decreases n
  {
    if i < n {
      AfterConcat(EMPTY, ttl, Flat(qs, n - 1), qs[n - 1].ms, t);
      LegalUpTo(qs, ttl, t, n - 1, i);
    }
  }

  /** Each request runs legally on the store it meets and leaves the one the next meets. */
  lemma {:induction false} RequestRuns(qs: seq<Request>, ttl: int, t: int, i: nat)
    requires Serving(qs, ttl, t) && i < |qs|
    ensures Legal(EMPTY, ttl, Flat(qs, i), t)
    ensures Legal(Meets(qs, ttl, i), ttl, qs[i].ms, LastInstant(Flat(qs, i), t))
    ensures Meets(qs, ttl, i + 1) == After(Meets(qs, ttl, i), ttl, qs[i].ms)
  {
    LegalUpTo(qs, ttl, t, |qs|, i + 1);
    AfterConcat(EMPTY, ttl, Flat(qs, i), qs[i].ms, t);
  }

  lemma {:induction false} RootGrows(s: Store, ttl: int, ms: seq<Move>, x: string)
    requires x in s.root
    ensures x in After(s, ttl, ms).root
  {
    if ms != [] {
      RootGrows(s, ttl, ms[..|ms| - 1], x);
    }
  }

  lemma {:induction false} RequestKeepsCreated(qs: seq<Request>, ttl: int, t: int, i: nat, x: string)
    requires Serving(qs, ttl, t) && i < |qs| && x in Meets(qs, ttl, i).root
    ensures x in Meets(qs, ttl, i + 1).root
  {
    RequestRuns(qs, ttl, t, i);
    RootGrows(Meets(qs, ttl, i), ttl, qs[i].ms, x);
  }

  lemma {:induction false} RequestKeepsSpent(qs: seq<Request>, ttl: int, t: int, i: nat, x: string)
    requires Serving(qs, ttl, t) && i < |qs| && Spent(Meets(qs, ttl, i), x)
    ensures Spent(Meets(qs, ttl, i + 1), x)
  {
    RequestRuns(qs, ttl, t, i);
    assert qs[i].ms[..0] == [];
    SpentAlways(Meets(qs, ttl, i), ttl, qs[i].ms, LastInstant(Flat(qs, i), t), 0, x);
  }

  lemma {:induction false} CreatedStaysCreated(qs: seq<Request>, ttl: int, t: int, i: nat, j: nat, x: string)
    requires Serving(qs, ttl, t) && i <= j <= |qs| && x in Meets(qs, ttl, i).root
    ensures x in Meets(qs, ttl, j).root
    decreases j - i
  {
    if i < j {
      RequestKeepsCreated(qs, ttl, t, i, x);
      CreatedStaysCreated(qs, ttl, t, i + 1, j, x);
    }
  }

  lemma {:induction false} SpentStaysSpent(qs: seq<Request>, ttl: int, t: int, i: nat, j: nat, x: string)
    requires Serving(qs, ttl, t) && i <= j <= |qs| && Spent(Meets(qs, ttl, i), x)
    ensures Spent(Meets(qs, ttl, j), x)
    decreases j - i
  {
    if i < j {
      RequestKeepsSpent(qs, ttl, t, i, x);
      SpentStaysSpent(qs, ttl, t, i + 1, j, x);
    }
  }

  /** A boot request renders what was not spent when it came, and spends it. */
  lemma {:induction false} BootRequestSpends(qs: seq<Request>, ttl: int, t: int, i: nat)
    requires Serving(qs, ttl, t) && i < |qs| && qs[i].Boot?
    ensures !Spent(Meets(qs, ttl, i), qs[i].value) && Spent(Meets(qs, ttl, i + 1), qs[i].value)
  {
    RequestRuns(qs, ttl, t, i);
    LineagesAlways(ttl, Flat(qs, i), t);
    BootSpends(Meets(qs, ttl, i), ttl, qs[i].ms, LastInstant(Flat(qs, i), t), qs[i].mac, qs[i].value);
  }

  /** A kickstart or unattend request renders a value that was never there before. */
  lemma {:induction false} InstallCreates(qs: seq<Request>, ttl: int, t: int, i: nat)
    requires Serving(qs, ttl, t) && i < |qs| && qs[i].Install?
    ensures qs[i].value !in Meets(qs, ttl, i).root && qs[i].value in Meets(qs, ttl, i + 1).root
  {
    RequestRuns(qs, ttl, t, i);
    assert qs[i].ms[..0] == [] && qs[i].ms[..1] == qs[i].ms;
    LegalAt(Meets(qs, ttl, i), ttl, qs[i].ms, LastInstant(Flat(qs, i), t), 0);
  }

  /** No token value is rendered by two boot requests, whatever is issued, marked, rotated
      or purged before, between and after them. */
  lemma {:induction false} RenderedOnce(qs: seq<Request>, ttl: int, t: int, i: nat, j: nat)
    requires Serving(qs, ttl, t) && i < j < |qs| && qs[i].Boot? && qs[j].Boot?
    ensures qs[i].value != qs[j].value
  {
    BootRequestSpends(qs, ttl, t, i);
    SpentStaysSpent(qs, ttl, t, i + 1, j, qs[i].value);
    BootRequestSpends(qs, ttl, t, j);
  }

  /** Of two requests that render one value the first installs and the second boots. */
  lemma {:induction false} TwiceIsInstallThenBoot(qs: seq<Request>, ttl: int, t: int, i: nat, j: nat, x: string)
    requires Serving(qs, ttl, t) && i < j < |qs| && Renders(qs[i], x) && Renders(qs[j], x)
    ensures qs[i].Install? && qs[j].Boot? && x in Meets(qs, ttl, j).root
  {
    if qs[i].Boot? {
      BootRequestSpends(qs, ttl, t, i);
    } else {
      InstallCreates(qs, ttl, t, i);
    }
    CreatedStaysCreated(qs, ttl, t, i + 1, j, x);
    if qs[j].Install? {
      InstallCreates(qs, ttl, t, j);
    } else if qs[i].Boot? {
      RenderedOnce(qs, ttl, t, i, j);
    }
  }

  /** No value is rendered three times. */
  lemma {:induction false} NeverRenderedThrice(qs: seq<Request>, ttl: int, t: int, i: nat, j: nat, k: nat, x: string)
    requires Serving(qs, ttl, t) && i < j < k < |qs|
    ensures !(Renders(qs[i], x) && Renders(qs[j], x) && Renders(qs[k], x))
  {
    if Renders(qs[i], x) && Renders(qs[j], x) && Renders(qs[k], x) {
      TwiceIsInstallThenBoot(qs, ttl, t, i, j, x);
      TwiceIsInstallThenBoot(qs, ttl, t, j, k, x);
    }
  }

  // When a value is rendered twice --------------------------------------------------------

  /** Row ids are ids that were used, each by one row. */
  ghost predicate DistinctIds(s: Store) {
    && (forall x | x in s.rows :: s.rows[x].id in s.ids)
    && (forall x, y | x in s.rows && y in s.rows && s.rows[x].id == s.rows[y].id :: x == y)
  }

  lemma {:induction false} DistinctIdsStep(s: Store, ttl: int, mv: Move)
    requires DistinctIds(s) && Enabled(s, mv)
    ensures DistinctIds(Apply(s, ttl, mv))
  {
  }

  lemma {:induction false} DistinctIdsAlways(ttl: int, ms: seq<Move>, t: int)
    requires Legal(EMPTY, ttl, ms, t)
    ensures DistinctIds(After(EMPTY, ttl, ms))
  {
    if ms != [] {
      var n := |ms| - 1;
      DistinctIdsAlways(ttl, ms[..n], t);
      DistinctIdsStep(After(EMPTY, ttl, ms[..n]), ttl, ms[n]);
    }
  }

  /** The query has one answer, and purging first does not change it. */
  lemma {:induction false} OneAnswer(s: Store, mac: string, first: int, now: int, x: string, answer: Option<string>)
    requires DistinctIds(s) && first <= now
    requires ActiveAnswer(s.rows, mac, now, Some(x)) && ActiveAnswer(Purge(s.rows, first), mac, now, answer)
    ensures answer == Some(x)
  {
    assert Usable(Purge(s.rows, first), mac, x, now);
    if answer.Some? {
      assert Usable(s.rows, mac, answer.value, now);
      assert s.rows[x].id == s.rows[answer.value].id;
    }
  }

  lemma {:induction false} PurgedAnswer(rows: Table, mac: string, first: int, now: int, x: string)
    requires first <= now && ActiveAnswer(Purge(rows, first), mac, now, Some(x))
    ensures ActiveAnswer(rows, mac, now, Some(x))
  {
    forall y | Usable(rows, mac, y, now) ensures NotAfter(rows[x], rows[y]) {
      assert Usable(Purge(rows, first), mac, y, now);
    }
  }

  /** When a boot request comes, `x` is the first usable token of its MAC: unused, not expired
      at the request's own read of the clock, and none expires later. */
  ghost predicate FindsFirst(qs: seq<Request>, ttl: int, j: nat, x: string)
    requires j < |qs|
  {
    qs[j].Boot? && qs[j].ms != [] && ActiveAnswer(Meets(qs, ttl, j).rows, qs[j].mac, qs[j].ms[0].to, Some(x))
  }

  /** A boot request renders `x`, created before it came, exactly when it finds it first. */
  lemma {:induction false} BootRendersWhatItFinds(qs: seq<Request>, ttl: int, t: int, j: nat, x: string)
    requires Serving(qs, ttl, t) && j < |qs| && qs[j].Boot? && x in Meets(qs, ttl, j).root
    ensures qs[j].value == x <==> FindsFirst(qs, ttl, j, x)
  {
    var s, ms, u := Meets(qs, ttl, j), qs[j].ms, LastInstant(Flat(qs, j), t);
    RequestRuns(qs, ttl, t, j);
    DistinctIdsAlways(ttl, Flat(qs, j), t);
    assert ms[..0] == [];
    LegalAt(s, ttl, ms, u, 0);
    if qs[j].value == x {
      if |ms| == 3 {
        RootGrows(s, ttl, ms[..1], x);
        LegalAt(s, ttl, ms, u, 1);
      }
      PurgedAnswer(s.rows, qs[j].mac, ms[0].from, ms[0].to, x);
    }
    if FindsFirst(qs, ttl, j, x) {
      OneAnswer(s, qs[j].mac, ms[0].from, ms[0].to, x, ms[0].event.answer);
    }
  }

  /** A value is rendered twice exactly when a kickstart or unattend request rendered it and
      a later boot request finds it as its machine's first usable token, which can be read off
      the store before the boot request is made. */
  lemma {:induction false} RenderedTwiceIff(qs: seq<Request>, ttl: int, t: int, i: nat, j: nat, x: string)
    requires Serving(qs, ttl, t) && i < j < |qs|
    ensures Renders(qs[i], x) && Renders(qs[j], x) <==> qs[i].Install? && qs[i].value == x && FindsFirst(qs, ttl, j, x)
  {
    if Renders(qs[i], x) && Renders(qs[j], x) {
      TwiceIsInstallThenBoot(qs, ttl, t, i, j, x);
      BootRendersWhatItFinds(qs, ttl, t, j, x);
    }
    if qs[i].Install? && qs[i].value == x && FindsFirst(qs, ttl, j, x) {
      InstallCreates(qs, ttl, t, i);
      CreatedStaysCreated(qs, ttl, t, i + 1, j, x);
      BootRendersWhatItFinds(qs, ttl, t, j, x);
    }
  }

  lemma {:induction false} IssueAskMark(ttl: int, mac: string, x: string, issue: Move, ask: Move, mark: Move)
    requires ttl > 0 && issue == Move(0, 0, Issued(mac, x, 0))
    requires ask == Move(0, 0, ActiveAsked(mac, Some(x))) && mark == Move(0, 0, MarkedUsed(x))
    ensures Legal(EMPTY, ttl, [issue, ask] + [mark], 0)
  {
    var s := Apply(EMPTY, ttl, issue);
    assert Usable(Purge(s.rows, 0), mac, x, 0);
    TwoMoves(EMPTY, ttl, 0, issue, ask);
    LegalExtends(EMPTY, ttl, [issue, ask], 0, mark);
  }

  /** It does happen: a kickstart request and then a boot request of the same machine. */
  lemma {:induction false} IssuedValueCanBeRenderedAgain(ttl: int, mac: string, x: string) returns (qs: seq<Request>)
    requires ttl > 0
    ensures Serving(qs, ttl, 0) && |qs| == 2 && qs[0].Install? && qs[1].Boot?
    ensures Renders(qs[0], x) && Renders(qs[1], x)
  {
    var issue, ask, mark := Move(0, 0, Issued(mac, x, 0)), Move(0, 0, ActiveAsked(mac, Some(x))), Move(0, 0, MarkedUsed(x));
    qs := [Install(x, [issue]), Boot(mac, x, [ask, mark])];
    IssueAskMark(ttl, mac, x, issue, ask, mark);
    assert Flat(qs, 1) == [issue];
    assert Flat(qs, 2) == [issue] + [ask, mark] == [issue, ask] + [mark];
    assert [ask, mark][..1] == [ask];
  }
}
