# Verified models of the provisioning services

This project models the stateful core of the provisioning services in Dafny and proves
what its state machines keep over whole runs. `dafny verify dfyconfig.toml` checks all of it.

**DHCP lease pool** (`Ip`, `LeasePool`, `LeaseRuns`, `DhcpHandler`, `MonotoneClock`). The
handler is a class over heap-allocated byte addresses with a clock that may advance at every
read. Each of its methods is proved to do one step of a numeric pool, and the theorems
are about all runs of that pool. From a fresh server on a range that ends below
255.255.255.255 the pool is a bump allocator: the wrap-around scan is never reached, no address
is used twice, and the server may refuse with no lease outstanding. "Refused only when full" holds per call, while the cursor is in the
range; of runs it is false, and the exact condition is proved instead. The configuration
check (`services/pxe-stack/internal/config/config.go:83-91`) admits a range that ends at
255.255.255.255. There the second scan does not end with the range: the next address is
0.0.0.0, which is no larger than the end, so the scan goes on and grants the first free address
below the range, and goes round for as long as every 32-bit address is taken. The model
follows it there; leases then leave the range, and the exact conditions for staying in it and
for coming back are proved.

**Run orchestration** (`RunProtocol`, `RunSafety`, `RunHandlers`, `RunQuiescence`,
`Orchestrator`). Two granularities. In the fine one a handler is a worker with a program
counter that other workers and any number of API requests may interrupt between its
database, cache and publish steps, with messages redelivered at will; ownership,
conservation and at-most-one are proved of every such execution. In the coarse one each
handler call is atomic. Every atomic call is shown to be one of the executions of the fine
machine, and the classes in `Orchestrator`, written as the source writes its handlers, are
proved to perform exactly these calls. The started and finished subjects are consumed
independently, so a started message can be consumed after its run has finished; that leaves a
cache entry that suppresses enrolment. When exactly the cache agrees with the table is proved
without any assumption on the order, and agreement in order follows from it.
At most one running run per machine is not something the code ensures once the API starts
runs, or finishes them with the status "running"; when it holds is proved as an equivalence.

**Boot tokens** (`TokenTable`, `TokenRuns`, `TokenRequests`, `TokenStore`). A table of expiring
rows with lazy purging and a transaction that rolls back. Every operation reads the clock
twice, at two instants. The design promises tokens that are marked used on their first render
(line 137 of the repository's README); the code does so for boot requests, while kickstart
and unattend requests render the value they issue without marking it. Over all sequences of
requests it is proved when exactly a value is rendered twice, and that none is three times.

**Facts** (`FactDiff`, `FactAudit`, `FactIngest`). The diff of two snapshots as a patch in
both directions, and an audit log whose replay rebuilds the latest snapshot under
at-least-once delivery. The API stores a fact before it publishes the event, so a newer fact
may be stored before an older one is handled; the order assumption rules that out, an example
shows what is lost without it, and the exact condition is proved for every history.

**Machine list** (`StableSort`, `RecentRuns`) **and bundles** (`BundleFormat`,
`BundleImport`, `BundleSafety`, `BundleRoundTrip`, `S3Url`). A one-pass grouping refined to
filter, take and stable sort; and building and importing a signed archive, where digest,
signature and encoding are functions of which only "decoding undoes encoding" and "one's own
signature verifies" are assumed, and only by the round trip. The query for runs orders by
`started_at` and then by `created_at`, a column that neither the `Run` model nor its migration
(`pkg/db/migrations/0001_init.go:48-58`) has: against that schema the statement fails. The
model takes up after the statement, on whatever rows it returns, and calls rows ordered by
start time, latest first and without a start last, rows in query order.

Identifiers, addresses and token values are supplied by the caller as fresh values; which
statements, publishes and registrations fail is a parameter of every operation.

## Model

| member | source | states |
|---|---|---|
| LeaseRuns.RefinesBumpCounter | services/pxe-stack/internal/dhcp/server.go:103-135 | from a fresh server, over every run of assigns and releases and any monotone clock, the allocator is a bump counter: the k-th new lease is start + k - 1, every lease lies below the cursor, and the cursor stops one past the end |
| LeaseRuns.NeverIssuedTwice | services/pxe-stack/internal/dhcp/server.go:103-141 | two new leases of one run never have the same address, released or expired in between or not (the later address is larger) |
| LeaseRuns.SecondScanIsDead | services/pxe-stack/internal/dhcp/server.go:111-134 | from a fresh server no call ever reaches the wrap-around scan |
| LeaseRuns.RefusedIffAllEverIssued | services/pxe-stack/internal/dhcp/server.go:111-134 | a MAC without a live lease is refused if and only if as many leases were ever issued as the range has addresses, whatever was given back since |
| LeaseRuns.RefusedForeverAfterEnd | services/pxe-stack/internal/dhcp/server.go:111-114 | once the last address has been issued, every later call for a MAC without a live lease is refused |
| LeaseRuns.EmptyPoolCanRefuse | services/pxe-stack/internal/dhcp/server.go:111-134 | "refused only when full" fails on every range: a run ends in a state with no lease at all in which any given MAC is refused |
| LeaseRuns.GrantIsTheCursor | services/pxe-stack/internal/dhcp/server.go:111-120 | when all leases lie below the cursor, a new lease is the cursor's own address, reached by the first scan and not by the second |
| LeaseRuns.LeaseSafety | services/pxe-stack/internal/dhcp/server.go:103-150 | from any safe state, with the clock free to advance between any two reads, no two MACs ever hold unexpired leases on one address |
| LeaseRuns.SafetyStep | services/pxe-stack/internal/dhcp/server.go:103-150 | one call keeps that, both at the instant that dates the new lease and at the end of the call |
| LeaseRuns.RangeInvariant | services/pxe-stack/internal/dhcp/server.go:111-134 | from any state with the cursor in or just past the range, every run keeps every lease inside the range, given a range that ends below 255.255.255.255 |
| LeaseRuns.InRangeIffNotAtTheTop | services/pxe-stack/internal/dhcp/server.go:118-131 | over all runs from a fresh server leases stay in the range exactly when the range ends below 255.255.255.255 or starts at 0.0.0.0; otherwise the cursor wraps to 0.0.0.0 |
| LeaseRuns.StrayRun | services/pxe-stack/internal/dhcp/server.go:118-119 | the run that leases 0.0.0.0 from a range ending at the last 32-bit address |
| LeaseRuns.AddressesAre32Bit | services/pxe-stack/internal/dhcp/server.go:103-141 | every run keeps all addresses within 32 bits and the range as configured |
| LeaseRuns.Capacity | services/pxe-stack/internal/dhcp/server.go:143-150 | by pigeonhole the unexpired leases of a safe state never outnumber the addresses of its range |
| LeaseRuns.CapacityAlongRuns | services/pxe-stack/internal/dhcp/server.go:103-150 | so they never do after any run of a fresh server |
| LeaseRuns.FewLeasesAlwaysReturn | services/pxe-stack/internal/dhcp/server.go:126-134 | by pigeonhole, with fewer leases than there are 32-bit addresses every call has an outcome at once, on every range |
| LeaseRuns.FullIffAllTaken | services/pxe-stack/internal/dhcp/server.go:143-150 | in a safe state with leases in range, all addresses are taken if and only if there are as many unexpired leases as addresses |
| LeaseRuns.LeaseIsStable | services/pxe-stack/internal/dhcp/server.go:56-72 | until release or expiry every DISCOVER or REQUEST of a lease holder is answered with the same address and its expiry is unchanged, whatever other MACs do (sections 3.1 and 4.3.1 of RFC 2131) |
| LeaseRuns.Churn | services/pxe-stack/internal/dhcp/server.go:103-141 | k rounds of assign and release leave an empty pool whose cursor has moved on by k |
| LeasePool.FrozenCallIsCyclicFirstFit | services/pxe-stack/internal/dhcp/server.go:111-134 | with the cursor in the range and the clock frozen for the call, on any range, the outcome is the one of an independent cyclic first-fit allocator; a refusal if and only if every address is taken, except that a range ending at 255.255.255.255 goes on to the addresses from 0.0.0.0 and has no outcome when all of those are taken too |
| LeaseRuns.RefusalMeansFull | services/pxe-stack/internal/dhcp/server.go:111-134 | while the cursor is in the range, a refusal is possible if and only if the pool was full at the first clock read: as many MACs with unexpired leases as addresses, this one not among them; and if it is full throughout the call, nothing else is possible |
| LeasePool.AnOutcomeExistsIffItReturns | services/pxe-stack/internal/dhcp/server.go:111-134 | a call that reads the clock between two instants has an outcome exactly when the range ends below 255.255.255.255, or the MAC has a lease, or the cursor is past the range, or some 32-bit address at all is free by the second instant; otherwise the second loop is still going round |
| LeasePool.FirstFree | services/pxe-stack/internal/dhcp/server.go:111-125 | the reference scan: the least free address of an interval, none exactly when all are taken |
| DhcpHandler.Handler.constructor | services/pxe-stack/internal/dhcp/server.go:17-31 | the initial state: no lease, cursor at the start of the range |
| DhcpHandler.Handler.IsAllocated | services/pxe-stack/internal/dhcp/server.go:143-150 | true means some unexpired lease held the address at the first read, false that none does after the last one, each lease being judged by its own clock read |
| DhcpHandler.Handler.LeaseHolds | services/pxe-stack/internal/dhcp/server.go:144-148 | one lease of that loop, by one clock read |
| DhcpHandler.Handler.Look | services/pxe-stack/internal/dhcp/server.go:112-123 | comparison with the end of the range and, unless beyond it, the allocation test, for one address of a scan |
| DhcpHandler.Handler.FirstScan | services/pxe-stack/internal/dhcp/server.go:111-124 | the first loop ends, and returns the first free address from the cursor up; null tells whether the cursor was past the range or the rest of the range is taken |
| DhcpHandler.Handler.SecondScan | services/pxe-stack/internal/dhcp/server.go:126-134 | the second loop ends, and returns the first free address from the start of the range, or, past 255.255.255.255, from 0.0.0.0 on; null only when the range ends and all of it is taken |
| DhcpHandler.Handler.SecondRound | services/pxe-stack/internal/dhcp/server.go:126-133 | one round of that loop: it ends, or everything so far is taken and it is nearer its end, counted in clock reads until some address is free and then in steps round to that address |
| DhcpHandler.Handler.FindFree | services/pxe-stack/internal/dhcp/server.go:111-134 | both loops: an address that a legal grant may take, or the situation in which a refusal is legal |
| DhcpHandler.Handler.Grant | services/pxe-stack/internal/dhcp/server.go:116-119 | the lease is dated by a clock read of its own, stored under the MAC with the very buffer scanned, and the cursor moves past it |
| DhcpHandler.Handler.Assign | services/pxe-stack/internal/dhcp/server.go:103-135 | a lease is renewed, unchanged, exactly when it is unexpired at the first read; otherwise a grant goes to an address that no unexpired lease holds when it is stamped, and expires a lease time after the stamp; whatever address is returned is held by a lease of the MAC that outlasts the call's start; the byte-level step is one legal numeric step, other slots and all stored buffers are untouched, and null with the cursor in the range means every address was taken |
| DhcpHandler.Handler.AssignNew | services/pxe-stack/internal/dhcp/server.go:111-134 | the part for a MAC without a live lease: a legal grant or refusal, stored or not accordingly |
| DhcpHandler.Handler.ReleaseLease | services/pxe-stack/internal/dhcp/server.go:137-141 | removes exactly the MAC's lease and leaves the cursor |
| DhcpHandler.Handler.Handle | services/pxe-stack/internal/dhcp/server.go:56-67 | DISCOVER is answered by an offer and REQUEST by an acknowledgement of the address that an unexpired lease of the sender then holds, RELEASE frees, anything else changes nothing; a refusal gets no reply |
| DhcpHandler.Handler.Respond | services/pxe-stack/internal/dhcp/server.go:69-83 | a reply of the given type carries the assigned address, and there is none exactly on a refusal |
| DhcpHandler.Handler.Serve | services/pxe-stack/internal/dhcp/server.go:33-67 | a sequence of messages handled one after the other is a legal run of the pool; each message is tied to its own move and reply: none for an ignored message, a release exactly for RELEASE, and a reply exactly for a renewal or grant, with its address, an offer to DISCOVER and an acknowledgement to REQUEST |
| DhcpHandler.ClientKeepsItsAddress | services/pxe-stack/internal/dhcp/server.go:56-109 | message by message: a client that holds a lease, sends no RELEASE and calls before the expiry is replied to with its address every time, its lease unchanged, whatever others send (sections 3.1 and 4.3.1 of RFC 2131) |
| DhcpHandler.Handler.NextAddress | services/pxe-stack/internal/dhcp/ip.go:17-29 | on four bytes increment is the numeric successor, 255.255.255.255 being followed by 0.0.0.0 |
| Ip.IncrementIP | services/pxe-stack/internal/dhcp/ip.go:17-29 | plus one modulo 256^n on the big-endian value for every length n, in a fresh array, the argument unchanged; nil gives nil |
| Ip.CloneIP | services/pxe-stack/internal/dhcp/ip.go:8-15 | a fresh array with the same bytes; nil gives nil |
| Ip.CompareIP | services/pxe-stack/internal/dhcp/ip.go:31-55 | nil first; on two IPv4 (or mapped) addresses the sign of the numeric difference; otherwise textual comparison |
| Ip.MappedIsIPv4 | services/pxe-stack/internal/dhcp/ip.go:41-44 | an IPv4-mapped address, ten zero bytes and two of 255 before it, compares as its last four bytes |
| Ip.CompareTextIsLexicographic | services/pxe-stack/internal/dhcp/ip.go:41-44 | the comparison of other addresses is lexicographic on their text, zero only for equal texts |
| Ip.CarryStops | services/pxe-stack/internal/dhcp/ip.go:22-27 | a carry that stops at a byte adds exactly one to the value |
| Ip.CarryDropsOut | services/pxe-stack/internal/dhcp/ip.go:22-27 | a carry past the first byte turns the largest value into zero |
| Ip.FirstDifferenceDecides | services/pxe-stack/internal/dhcp/ip.go:45-54 | the first differing byte decides the numeric order |
| Ip.ValueInjective | services/pxe-stack/internal/dhcp/server.go:145 | equal values of equal length are equal bytes, which makes the byte comparison of addresses a numeric one |
| RunQuiescence.QuiescentCacheAgrees | services/orchestrator/sm.go:110-262 | with handlers called one at a time, successful publishes, no API finish to "running", and each run's started messages consumed before its last finished message: whenever no lifecycle message is pending, every cached run is a running run of its machine |
| RunQuiescence.QuiescentCacheAgreesIff | services/orchestrator/sm.go:110-262 | the exact condition, with no assumption on the order of delivery: with no lifecycle message pending the cache agrees if and only if every late start (a started message consumed after its run has stopped and its last finished message was consumed) is followed by another started message of the machine or a successful post-install fact of it |
| RunQuiescence.StaleComesFromLateStart | services/orchestrator/sm.go:197-262 | a stale entry whose run has no finished message to come stems from a late start that nothing has displaced since |
| RunQuiescence.LateEntryStays | services/orchestrator/sm.go:221-262 | what a late start has put into the cache stays there, its run stopped, until it is displaced |
| RunQuiescence.StaleIsTransientAlways | services/orchestrator/sm.go:197-245 | under the order assumption, at every earlier point a cached run that is not running has a finished message still to be delivered |
| RunQuiescence.StoppedWasAnnounced | services/orchestrator/sm.go:197-219 | a run that is not running has its finished message pending or delivered |
| RunQuiescence.HowEntriesGoStale | services/orchestrator/sm.go:221-262 | a cache entry for a stopped run was there before or comes from a started message |
| RunQuiescence.LateStartLeavesStaleEntry | services/orchestrator/sm.go:221-233 | without the order: a finished message consumed before the started one leaves a stale entry with nothing pending |
| RunQuiescence.EntrySuppressesEnrolment | services/orchestrator/sm.go:119-121 | such an entry makes every later enrolment of the machine a no-op that is acknowledged, until a lifecycle message or post-install fact of that machine |
| RunQuiescence.FactLetsMachineEnrolAgain | services/orchestrator/sm.go:177-209 | a post-install fact clears the entry, and the next enrolment that finds no running run starts one |
| RunQuiescence.SharedOwnedAlways | services/orchestrator/sm.go:110-262 | ownership, below, for sequences of whole handler calls |
| RunSafety.AtMostOneAlways | services/orchestrator/sm.go:119-145 | over every interleaving of the handlers' sub-steps and any redelivery, no machine has two running runs, when only the orchestrator creates runs and no API finish uses "running" |
| RunSafety.AtMostOneIffEntriesAreAlone | services/orchestrator/sm.go:119-145 | the exact condition, over all interleavings and any API requests: no machine ever has two running runs if and only if every step that sets a run running (a creation by either side, or an API finish with status "running") happens while no other run of its machine is running |
| RunSafety.CarefulApiKeepsAtMostOne | services/api/handlers_runs.go:35-47 | so API starts are harmless when each finds no run of its machine running and the enrolment handler not between its query and its creation for that machine |
| RunSafety.ApiStartBreaksAtMostOne | services/api/handlers_runs.go:35-47 | with API starts that fails: a machine just enrolled gets a second running run |
| RunSafety.Conservation | services/orchestrator/sm.go:136-147 | over every interleaving, whoever creates runs and with whatever status the API finishes them: the runs created for a machine plus its runs' re-entries into "running" equal their exits from "running" plus its runs now running |
| RunSafety.NoneReenters | services/api/handlers_runs.go:97-105 | there are no re-entries when no API finish uses "running" |
| RunSafety.EntriesFollowExits | services/orchestrator/sm.go:119-145 | wherever at most one run per machine is running, entries exceed exits by one exactly while a run of the machine is running, and are equal otherwise |
| RunSafety.OwnershipAlways | services/orchestrator/sm.go:177-262 | over all interleavings including API requests: every cache entry, pending message, request under way and worker position that pairs a machine with a run pairs it with a stored run of that machine |
| RunSafety.FactsCompleteOwnRunsOnly | services/orchestrator/sm.go:197-207 | a fact from a machine only ever completes a run of that machine, and completing changes nothing of the run but its status |
| RunSafety.StoppedForever | services/orchestrator/sm.go:197-245 | if API finishes never use "running", a run that has left running never runs again, whatever is redelivered |
| RunSafety.OwnershipStep | services/orchestrator/sm.go:110-262 | every sub-step keeps ownership |
| RunSafety.BalanceStep | services/orchestrator/sm.go:136-207 | every sub-step, API saves with any status included, keeps that balance |
| RunSafety.AtMostOneStep | services/orchestrator/sm.go:119-149 | every sub-step in which the API takes that care keeps at most one, together with: an enrolment about to create still finds no running run |
| RunHandlers.MoveIsSubSteps | services/orchestrator/sm.go:110-262 | every atomic handler call and API request is an execution of sub-steps with nothing in between, so the interleaving results hold of whole calls |
| RunHandlers.EnrolledIsSubSteps | services/orchestrator/sm.go:110-159 | that decomposition for the enrolment handler |
| RunHandlers.FactsIsSubSteps | services/orchestrator/sm.go:161-219 | that decomposition for the facts handler |
| RunHandlers.ApiMoveIsSubSteps | services/api/handlers_runs.go:14-118 | that decomposition for the API's start and finish |
| Orchestrator.StateMachine.HandleMachineEnrolled | services/orchestrator/sm.go:110-159 | a nameless machine is refused and one with a cached run acknowledged, both without effect; otherwise the running run that started last is cached, or a run is created, cached and announced; acknowledged exactly when nothing failed; a failed query or write changes nothing |
| Orchestrator.StateMachine.HandleAgentFacts | services/orchestrator/sm.go:161-219 | a nameless machine is refused and an ordinary fact acknowledged, both without effect; a post-install fact sets the cached run, or the running one that started last, to success, drops it from the cache and announces it, and is acknowledged only when all that succeeded |
| Orchestrator.StateMachine.HandleRunStarted | services/orchestrator/sm.go:221-233 | caches the run when the status is "running" up to case; ignores nil identifiers |
| Text.EqualFoldIffSameLetters | services/orchestrator/sm.go:229 | the status comparison: equal up to the case of each letter |
| Orchestrator.StateMachine.HandleRunFinished | services/orchestrator/sm.go:235-245 | clears the entry if it is this run's; ignores nil identifiers |
| Orchestrator.StateMachine.SetActiveRun | services/orchestrator/sm.go:247-254 | the entry of the machine becomes the run, nothing else changes |
| Orchestrator.StateMachine.ClearActiveRun | services/orchestrator/sm.go:256-262 | removes the entry only if it is this run |
| Orchestrator.StateMachine.ConsumeStarted | pkg/bus/bus.go:85-94 | the subscription's callback: handle, then acknowledge; without the acknowledgement the message stays |
| Orchestrator.StateMachine.ConsumeFinished | pkg/bus/bus.go:85-94 | the same for finished messages |
| Orchestrator.RunTable.FirstRunning | services/orchestrator/sm.go:123-127 | the answer is a running run of the machine that started no earlier than any other, the smaller id among equals, or none when none runs |
| Orchestrator.RunsApi.HandleRunStart | services/api/handlers_runs.go:14-60 | creates a running row when machine and blueprint are named, and publishes; a failed publish goes unreported |
| Orchestrator.RunsApi.HandleRunFinish | services/api/handlers_runs.go:62-118 | overwrites the status of a known run with the trimmed status and publishes; an unknown run, blank status or failing lookup is refused |
| Text.TrimSpaceTakesSpace | services/api/handlers_runs.go:76 | trimming takes space off both ends, all of it and nothing else |
| TokenRuns.LineagesAlways | services/api/token_store.go:62-86 | over every sequence of operations tokens form disjoint linear chains rooted at issued ones, and all but the newest of a chain are expired or gone |
| TokenRuns.RotatedAtMostOnce | services/api/token_store.go:134-205 | two successful rotations never rotate the same token value |
| TokenRuns.OneLiveTokenPerChain | services/api/token_store.go:174-195 | two unexpired tokens of one chain are the same token |
| TokenRuns.OnlyNewestRotates | services/api/token_store.go:160-177 | a rotation can only succeed on the newest token of its chain |
| TokenRuns.LineagesStep | services/api/token_store.go:62-205 | every operation keeps the chains |
| TokenRuns.PurgingIsUnobservable | services/api/token_store.go:54-60 | after any operations, Issue, the answers of Active and successful Rotates are exactly those of a reference store that never deletes and serves the same requests by its own rows; only marking a dead token, which the reference may still mark, and which of two refusals Rotate gives can differ |
| TokenRuns.AgreesAlways | services/api/token_store.go:54-60 | store and reference, each serving in its own way, hold the same rows up to expired ones, along every run |
| TokenRuns.SameObservations | services/api/token_store.go:88-177 | in states that agree, the observed outcomes are possible in one store exactly when in the other |
| TokenRuns.RefAnswersAlike | services/api/token_store.go:114-177 | whatever the store answers, the reference's own answer is the same, or marks a token that is dead, or refuses a rotation with the other error |
| TokenRequests.RenderedOnce | services/api/handlers_boot.go:30-46 | over every sequence of requests no token value is rendered by two boot requests |
| TokenRequests.RenderedTwiceIff | services/api/handlers_boot.go:30-46 | the exact condition: two requests render one value if and only if the earlier is a kickstart or unattend request that issued it and the later a boot request for which it is, in the store the request meets, the first usable token of the MAC: unused, unexpired, none expiring later |
| TokenRequests.NeverRenderedThrice | services/api/handlers_boot.go:30-46 | no three requests render one value |
| TokenRequests.BootRendersWhatItFinds | services/api/handlers_boot.go:30-41 | a boot request renders a value that existed before if and only if it finds it first |
| TokenRequests.InstallCreates | services/api/handlers_boot.go:90-108 | a kickstart or unattend request renders a value that was never there before |
| TokenRequests.BootSpends | services/api/handlers_boot.go:30-46 | what a boot request renders could still be handed out before it and cannot be after it |
| TokenRequests.SpentStep | services/api/token_store.go:114-132 | used never reverts and a purged value never comes back, under every operation |
| TokenRequests.IssuedValueCanBeRenderedAgain | services/api/handlers_boot.go:90-108 | a kickstart request renders the value it issues without marking it, and a boot request of the same machine renders it once more |
| TokenStore.TokenStore.constructor | services/api/token_store.go:32-52 | an empty store; a lifetime that is not positive is replaced by the default |
| TokenStore.TokenStore.PurgeExpired | services/api/token_store.go:54-60 | deletes exactly the rows expired at its own clock read |
| TokenStore.TokenStore.Issue | services/api/token_store.go:62-86 | purges exactly what has expired and stores a fresh unused row of the normal MAC that lives for the lifetime from the second read; errors leave the table as it was or only purged; succeeds exactly for a non-blank MAC with no failing statement |
| TokenStore.TokenStore.Active | services/api/token_store.go:88-112 | purges exactly what has expired and returns a token of this MAC that is unused and unexpired at the second read, none of which expires later, or none when there is none |
| TokenStore.TokenStore.FirstActive | services/api/token_store.go:98-106 | the query's answer, smaller id among equal expiries |
| TokenStore.TokenStore.MarkUsed | services/api/token_store.go:114-132 | sets the used mark of the row of the trimmed value, dead or alive, and changes nothing else of it or of the table; not found exactly when there is no such row |
| TokenStore.CaseDoesNotMatter | services/api/token_store.go:63 | MACs that differ only in letter case are one MAC |
| TokenStore.NormalMacIsNormal | services/api/token_store.go:63 | the MAC stored has no capitals and no surrounding space, and is the given one otherwise |
| TokenStore.TokenStore.Rotate | services/api/token_store.go:134-205 | the old token of the MAC is marked and expired at the second read, the new one stored for a lifetime, everything else unexpired untouched; or, on any error, the table is as it was, the purge undone too; with no failing statement the expiry alone decides: done when after the second clock read, ErrTokenExpired when between the two, ErrTokenNotFound when before both or without such a token |
| TokenStore.TokenStore.Transact | services/api/token_store.go:145-204 | commit or roll back: a success is the rotating move, an error changes nothing |
| TokenStore.TokenStore.RotateInTx | services/api/token_store.go:155-202 | the statements inside the transaction; a success is exactly the rotating move |
| TokenStore.TokenStore.LockRow | services/api/token_store.go:155-177 | purge, then the second clock read and the lookup by MAC and value: alive, not found, or expired exactly when the expiry falls between the two reads |
| TokenStore.TokenStore.Exchange | services/api/token_store.go:179-202 | marks and expires the old row and inserts the replacement |
| TokenStore.BootApi.ObtainToken | services/api/handlers_boot.go:30-41 | an active token of the machine or else a newly issued one |
| TokenStore.BootApi.HandleIPXE | services/api/handlers_boot.go:13-71 | the store operations are a legal run that obtains and marks the rendered token, whose row is of the machine's MAC and used; with no failing statement it renders exactly for a known machine |
| TokenStore.BootApi.HandleInstall | services/api/handlers_boot.go:73-118 | kickstart and unattend: one Issue for the machine found, rendered and left unused |
| FactAudit.ReplayIsLatestSnapshot | services/inventory/ingest.go:89-167 | events stored or handled in increasing creation order, each before a newer one is stored, with any redelivery and any failing inserts: once the newest fact is handled, folding the audited changes from the empty snapshot gives its snapshot, null identified with absent |
| FactAudit.FaithfulAlways | services/inventory/ingest.go:89-167 | the invariant behind it, for every machine at every point of the run |
| FactAudit.FaithfulStep | services/inventory/ingest.go:107-122 | one delivery or store keeps it, the failing ones included |
| FactAudit.EntryCatchesUp | services/inventory/ingest.go:107-122 | in order, the entry of a call leads the replay to the event's snapshot, first delivery or repeated |
| FactAudit.EntryCatchesUpIff | services/inventory/ingest.go:107-122 | in whatever order events come, a successful call leads the replay to the event's snapshot if and only if the replay agreed with it wherever the compared fact does |
| FactAudit.ReplayIsLastHandledIff | services/inventory/ingest.go:89-167 | over any history, without the order assumption: the audit log replays to the snapshot of the last handled event of a machine if and only if that was so when it was handled |
| FactAudit.OutOfOrderLosesFacts | services/api/handlers_facts.go:31-50 | the order is needed: two facts stored before the first is handled leave an audit log that replays to nothing |
| FactDiff.ComputeDiff | services/inventory/ingest.go:169-198 | a key is recorded if and only if its presence or its value differs, with the old and the new value, null for absent |
| FactDiff.DiffPrevious | services/inventory/ingest.go:179-188 | the first pass covers exactly the keys of the previous snapshot |
| FactDiff.PatchesInvert | services/inventory/ingest.go:169-198 | the new sides turn previous into current and the old sides turn it back, null identified with absent |
| FactDiff.PatchesExactIff | services/inventory/ingest.go:169-198 | they do so exactly, nulls and all, if and only if the target has no null the source lacks |
| FactDiff.ForwardReachesIff | services/inventory/ingest.go:169-198 | applied to any snapshot without nulls, the diff leads to current if and only if that snapshot agrees with current on every key the diff does not mention |
| FactDiff.EmptyIffEqual | services/inventory/ingest.go:169-198 | the diff is empty if and only if the snapshots are equal |
| FactDiff.DiffIsLeast | services/inventory/ingest.go:169-198 | no smaller patch would do: any changes that lead from previous to current contain every change of the diff that alters a value, with the same new side |
| FactDiff.DiffFlips | services/inventory/ingest.go:169-198 | the diff the other way round has the sides exchanged |
| FactIngest.Ingestor.HandleFact | services/inventory/ingest.go:89-123 | acknowledged exactly when both identifiers are there and no statement fails; the fact is stored once, and the one new entry records exactly the differences to the latest other fact of the machine; a call that fails before the insert changes nothing, and none that fails adds an entry |
| FactIngest.Ingestor.PreviousFact | services/inventory/ingest.go:125-135 | the other fact of the machine created last, smaller id among equals, or none when there is none |
| FactIngest.Ingestor.InsertFact | services/inventory/ingest.go:137-150 | inserts unless the id is there already, and then leaves that row alone |
| FactIngest.Ingestor.StoreFact | services/api/handlers_facts.go:31-41 | the API's store before publishing |
| RecentRuns.FetchRecentRuns | services/api/handlers_machines.go:178-223 | each machine with rows gets exactly the runs of its first perMachine rows, their own ids and times, latest first, and no other machine gets any; it is the stable sort of the first perMachine of its own rows; the second cut never happens |
| RecentRuns.TakenAreTheFirst | services/api/handlers_machines.go:197-208 | a run is kept exactly when it is the run of a row of the machine with fewer than perMachine rows of it before |
| RecentRuns.GroupRuns | services/api/handlers_machines.go:197-208 | one pass with per-machine limits is filtering by machine, then taking |
| RecentRuns.SortGroups | services/api/handlers_machines.go:210-220 | sorts every list, none of which is long enough to be cut |
| RecentRuns.SortIsIdentityWhenStarted | services/api/handlers_machines.go:187-216 | on rows in query order the sort changes nothing when the kept runs have started |
| RecentRuns.ListedAreLatestIff | services/api/handlers_machines.go:197-219 | taking first and sorting afterwards lists the latest runs if and only if no run left out is later than one kept |
| RecentRuns.StartedAreLatest | services/api/handlers_machines.go:187-219 | so it does on rows in query order when all of the machine's runs have started |
| RecentRuns.UnstartedRunCanBeMissed | services/api/handlers_machines.go:225-233 | and it fails on two rows in query order, one of them with an end but no start |
| RecentRuns.FetchLatestFacts | services/api/handlers_machines.go:144-176 | each machine with facts gets its first row, which in query order is its latest |
| StableSort.SortIsStable | services/api/handlers_machines.go:212-216 | the sort orders latest first and keeps, for every time, its runs in their given order |
| StableSort.SortKeepsMembers | services/api/handlers_machines.go:212-216 | the sort loses no run and adds none |
| StableSort.StableSortIsUnique | services/api/handlers_machines.go:212-216 | order and stability determine the result |
| StableSort.SortedIsFixed | services/api/handlers_machines.go:212-216 | a list is left as it is if and only if it is in order |
| StableSort.TakeThenSortIsSortThenTakeIff | services/api/handlers_machines.go:203-219 | sorting the first k gives the first k of the sorted list if and only if no later element is later in time than one of the first k |
| BundleRoundTrip.RoundTrip | services/bundler/bundler.go:61-102 | importing what was built from an unchanged directory uploads exactly its regular files, each once, with its bytes, in strict path order, and returns the same manifest |
| BundleRoundTrip.ImportOfBuilt | services/bundler/bundler.go:396-443 | if files change between the hashing and the writing, the import succeeds if and only if none changed in size or digest, and uploads a prefix as it was written |
| BundleRoundTrip.ManifestListsTheFiles | services/bundler/bundler.go:110-156 | the sorted list has one entry per regular file, describing it, in strict path order |
| BundleRoundTrip.ArchiveUnpacks | services/bundler/bundler.go:325-379 | a written archive unpacks to its manifest and every file under its name |
| BundleRoundTrip.BuiltManifestVerifies | services/bundler/bundler.go:381-402 | a built manifest passes version, signature and decoding checks |
| BundleRoundTrip.AllUploadedIffAllMatch | services/bundler/bundler.go:407-443 | with a willing outside everything is uploaded if and only if every file matches its entry |
| BundleSafety.ImportIsSafe | services/bundler/bundler.go:381-446 | for any archive: no upload unless its manifest decodes, has version 1 and a signature that verifies over all of the rest; the uploads follow a prefix of its list, each with unpacked bytes of the listed size and digest; success exactly when all are uploaded |
| BundleSafety.ForgedUploadsNothing | services/bundler/bundler.go:396-402 | if the verifier accepts only what was signed, an archive whose manifest differs from every signed one in any field but the signature uploads nothing |
| BundleSafety.ManifestCameFromTheArchive | services/bundler/bundler.go:352-358 | the manifest that counts is the data of the last regular entry of its name |
| BundleSafety.UnpackFailsIff | services/bundler/bundler.go:325-379 | unpacking fails exactly when a directory or a file other than the manifest has no place or is not taken there |
| BundleSafety.FilesAreTheEntries | services/bundler/bundler.go:357-378 | the names unpacked are exactly those of the regular entries other than the manifest |
| BundleSafety.UploadsAreFaithful | services/bundler/bundler.go:407-443 | every upload carries the unpacked bytes of its artifact, of the listed size and digest |
| BundleSafety.StoredCameFromTheArchive | services/bundler/bundler.go:325-379 | for any archive: what a temporary file holds is the data of the last regular entry placed there |
| BundleSafety.UploadsAreThePrefix | services/bundler/bundler.go:407-443 | the uploads are the successful attempts before the first failing one, whose error is reported |
| BundleFormat.Build | services/bundler/bundler.go:61-108 | no artifacts exactly when there is no regular file; otherwise a manifest of version 1 with exactly the regular files in path order, signed as a whole, and an archive of it and of every file as read, under "artifacts/" and its path |
| BundleFormat.SignatureCoversTheRest | services/bundler/manifest.go:21-25 | manifests that are signed as the same bytes are equal in every field but the signature |
| BundleFormat.CollectArtifacts | services/bundler/bundler.go:110-156 | exactly the regular files of the walk, in walk order, with path, kind, size and digest |
| BundleFormat.WriteBundle | services/bundler/bundler.go:177-244 | the manifest first, then every listed file; a file that is gone stops it |
| BundleFormat.SortByPathSorts | services/bundler/bundler.go:74-76 | the sort by path is ordered and a permutation |
| Text.LessIffFirstDifference | services/bundler/bundler.go:74-76 | paths are ordered by the first place where they differ, a proper prefix first |
| BundleImport.Import | services/bundler/bundler.go:325-446 | does what the outcome function says for any archive, whatever names it holds and whichever entries the file system refuses; nothing is uploaded without an accepted manifest |
| BundleImport.VerifyManifest | services/bundler/bundler.go:381-402 | the checks in their order; passing means decoded, of version 1 and verified over everything but the signature |
| BundleImport.UnpackArchive | services/bundler/bundler.go:325-379 | the unpacking loop, with directories, other entry types, repeated entries, names whose path does not begin with the temporary directory's, and entries the file system does not take |
| BundleImport.UploadArtifacts | services/bundler/bundler.go:407-446 | the upload loop stops at the first failing artifact and reports its error |
| BundleImport.UploadArtifact | services/bundler/bundler.go:411-441 | uploaded if and only if the file is there, matches size and digest, gets an address that parses, and the store takes it; then with the stored bytes, to the bucket and key the API named or else those of its address; a missing file is reported as such |
| BundleImport.ValidateArtifact | services/bundler/bundler.go:448-468 | accepts exactly the listed size and, up to letter case, the listed digest; size is checked first |
| S3Url.FormattedParsesIff | services/bundler/bundler.go:514-538 | the address made of bucket and key parses back to them if and only if neither is empty and the bucket has no slash |
| S3Url.ParsedReassembles | services/bundler/bundler.go:523-538 | what parses is a scheme, a non-empty bucket without slash, a slash and a non-empty key |

## Left out

- HTTP and JSON decoding, routing, GORM and SQL, NATS, S3 and the file system: tables are maps, subjects are sets of messages, and every statement or publish has a parameter that says whether it succeeds. A failing statement changes nothing.
- Message subjects are sets, so two outstanding copies of one message are one; `acked` says that the last copy was acknowledged. A negative acknowledgement is the absence of an acknowledgement.
- DHCP packet building, options, sockets and the handler's mutex: each call is one step, as under the lock.
- Leases that are not four bytes long: the server stores `To4()` of the configured range, so the handler's invariant fixes the length; increment and comparison are modelled for all lengths.
- `isPostInstallDone`, `deriveMachineStatus`, `inferKind`, `readImagesFile`: one-branch functions; the first is a boolean in a facts event.
- Run columns other than machine, status and start time (blueprint, logs, finish time).
- Deletion of machines, which sets a run's machine to null, and a restart of the orchestrator, which empties the cache.
- The rest of `handleKickstart` and `handleUnattend`, which call Issue once and render its value.
- Concurrent token operations: each is one step, as with serialized transactions; a commit that fails after taking effect is not modelled.
- `sort.SliceStable` and `sort.Slice` run in place on a slice; here they are functions on sequences, so aliasing of the backing array is not captured.
- Tar, zstd, YAML, age and Ed25519 formats, a signer without a private key, and a file that changes size while it is being copied; names in archives and manifests are taken as already cleaned, and paths are joined by one slash.
- Configuration checks at the head of `Build` and `Import`, cancellation of contexts and output to the terminal.
- Case folding and trimming beyond ASCII.
- Timestamps are integers: the database's rounding to microseconds and truncation of `CreatedAt` to seconds are not modelled.
- DhcpHandler.Handler.Assign: like Respond and Handle, asks for a state in which the call comes back: a range ending below 255.255.255.255, a live lease, a cursor past the range, or some 32-bit address that is free by a later read of the clock. Only where 2^32 leases never run out is nothing stated, since there the source goes round for ever. It also asks for a range that is not empty, which the configuration check ensures.
- Orchestrator.RunsApi.HandleRunStart: checks that a blueprint is named but does not keep it, a column that no modelled step reads.
- BundleImport.UnpackArchive: which entries the file system refuses, as it refuses a file where a directory is, is a parameter and not computed from the names.
- Templates, blueprints, telemetry, agents, the UI, branding, TFTP and deployment files: input, output or configuration without state of their own.
