# Amnezia Nexus: a verified model

This project models the stateful core of the repository in Dafny 4.11 and proves what
it is meant to guarantee. `dafny verify dfyconfig.toml` checks everything.

Each source file has one or more modules of its own. Code that changes state is a class
with the same fields, and its methods are proved against a specification of one step; the
properties that range over time are lemmas about every sequence of such steps.

| file | module | what it holds |
|---|---|---|
| `route_view.dfy`, `route_machine.dfy`, `route_runs.dfy`, `route_answers.dfy`, `route_cache.dfy` | `RouteView`, `RouteMachine`, `RouteRuns`, `RouteAnswers`, `RouteCaches` | the route-decision cache: views, one locked step, what all runs exclude, what they do answer, and the classes |
| `netip.dfy`, `ipv4.dfy` | `Netip`, `Ipv4` | addresses, prefixes, the interval index |
| `domain.dfy`, `spellings.dfy`, `snapshot.dfy` | `Domain`, `Spellings`, `Snapshots` | names and rules, how a name may be written, the compiled snapshot and its matcher |
| `store.dfy`, `sync.dfy`, `sync_runs.dfy`, `sync_outcomes.dfy` | `Store`, `Sync`, `SyncRuns`, `SyncOutcomes` | the durable generation, the update cycle, all runs with crashes, what an update publishes |
| `ratelimit.dfy` | `RateLimit` | the token-bucket limiter |
| `leases.dfy`, `lease_effects.dfy`, `client_params.dfy`, `reconcile.dfy` | `Leases`, `LeaseEffects`, `ClientParams`, `Reconcile` | the AWG lease table, what each operation leaves in it, and its legacy reconciliation |
| `traffic.dfy` | `Traffic` | traffic counters and their resets |
| `tunnels.dfy` | `Tunnels` | backend tunnel rows and compare-and-swap |
| `captcha.dfy` | `Captcha` | the one-shot challenge and ticket store |
| `header_range.dfy` | `HeaderRanges` | header ranges and their text and JSON forms |
| `options.dfy`, `sets.dfy`, `instants.dfy`, `decimal.dfy` | `Options`, `Sets`, `Instants`, `Decimal` | small shared vocabulary |

Clocks, random identifiers, fetch results, file-system outcomes and the answers of library
parsers are parameters. A mutex-protected operation or an SQL statement is one atomic step.
Map iteration order, and the row that a `LIMIT 1` query returns, are arbitrary.

## What does not hold

These are properties one might expect that the code does not have. Each comes with a
concrete input and the exact condition under which the property holds.

- An IPv4-mapped CIDR rule such as `::ffff:1.2.3.0/120` passes `ParseIPv4Rule` but becomes
  the invalid zero prefix (`internal/policy/ipv4.go:47-51`). The live snapshot counts it and
  matches nothing with it; the durable form then cannot be parsed, so a restart recovers
  nothing and the version starts again at 1 (`Ipv4.AcceptedRuleIsValidIff`,
  `Store.DurableFormParsesIff`, `SyncRuns.RestartRecoversIff`, `SyncRuns.InvalidRuleIsNotRecovered`).
- The 64-bit version wraps to 0, and a generation with version 0 is refused by `Load`
  (`Store.CommittedLoadsIff`); the theorems about versions are for runs too short to wrap it.
- A start that finds a file but does not recover it, because the store cannot be read, the
  configuration has changed or a prefix does not parse, begins again at version 1 and without
  the shrink guard (`SyncRuns.ColdStartBeginsAtOne`, `SyncRuns.ProperIsRecoverableIff`).
- Deleting idle buckets is unobservable if and only if `rate * entryTTL >= burst`
  (`RateLimit.CleanupUnobservableIff`); the constructor does not enforce it.
- A row with status `released` is left out of the used set although it still occupies its
  address, so an allocation that picks this address fails all fifty tries
  (`Leases.FirstTrySucceedsIff`, `Leases.ReleasedRowBlocks`). No operation writes such a row
  (`Leases.AllocationNeverCollides`); it can only come from restored data.
- With both names empty every allocation on a server fails while the first one lasts
  (`Leases.AnonymousCollides`).
- Adopting an address with a key but no client name also supersedes the lease of the client
  whose stored name is empty, because the query compares both names
  (`internal/database/awg_ip_allocations.go:325-326`; `Leases.AdoptSparesOthersIff`,
  `Leases.AdoptTakesNamelessLease`).
- The monthly reset also subtracts `traffic_used` for users on the monthly strategy but
  compares only `monthly_reset_at`, so a period reset since the snapshot makes it subtract
  the same bytes twice (`Traffic.LaterUsageIsLost`). It is right if and only if usage and the
  lifetime total have grown by the same amount since, or the total has not grown at all
  (`Traffic.MonthlyResetKeepsLaterUsageIff`).
- `CompareAndSwapTunnelStatus` accepts the administrative reason that the other health writer
  refuses (`Tunnels.AdminReasonOrigin`).
- `ParseHeaderRange` passes a range value with `lo > hi` on unchecked
  (`HeaderRanges.AcceptedIsValidIff`), the JSON object with both bounds 0 is refused
  (`HeaderRanges.ObjectIsAcceptedIff`), and `PickOne` panics on the whole 32-bit range
  (`HeaderRanges.PickOneIff`).
- The third condition of the second capacity check (`internal/policy/route_cache.go:371`)
  never decides anything (`RouteCaches.RecheckIsProxyOverflow`).

## Model

| member | source | states |
|---|---|---|
| RouteRuns.ProxyWins | internal/policy/route_cache.go:275-449 | after an Observe with a Proxy observation (accepted or answered with capacity exceeded) no Lookup of that address in that session before its deadline returns Direct, over any run in between without an effective change of generation, Invalidate and the reopening of scopes included |
| RouteAnswers.ProxyIsAnswered | internal/policy/route_cache.go:201-223 | an accepted live Proxy is answered by every Lookup of its address in that session under the same generation before its deadline, unless the generation changed, the session was invalidated, or a batch of it was answered with a quarantine in between |
| RouteAnswers.DirectIsAnswered | internal/policy/route_cache.go:275-316 | an accepted Direct is answered likewise until its deadline if no Proxy for the address was stored or has been taken and no cap has been reached; of several Directs the latest deadline is therefore in force |
| RouteAnswers.EvictsOnlyWhenFull | internal/policy/route_cache.go:340-366 | a merged entry is dropped only when a cap is reached with what is kept |
| RouteAnswers.QuarantineEndsWithEvidence | internal/policy/route_cache.go:318-335 | a new quarantine ends with the deadline of something it discarded, no later |
| RouteAnswers.ExtensionIsExact | internal/policy/route_cache.go:407-424 | while a quarantine runs a valid batch is answered with it and moves its deadline exactly to the latest of the old one and those of its Proxies |
| RouteAnswers.SweepLeavesTheLiving | internal/policy/route_cache.go:475-522 | after Sweep(t) a session has exactly its entries that are alive after t, no quarantine that is over, and the total is what is left |
| RouteAnswers.OpenSucceedsIff | internal/policy/route_cache.go:170-197 | a named scope is opened exactly when an unretired session has it or fewer than MaxSessions are unretired; the session is of that scope, and a new one is empty |
| RouteRuns.MergeMeaning | internal/policy/route_cache.go:249-316 | what a batch makes of an address, told by its observations: Proxy while an old or new Proxy is alive, Direct only without any Proxy in the batch, each with the latest deadline of its kind, and otherwise nothing |
| RouteRuns.GuardStarts | internal/policy/route_cache.go:318-449 | an accepted or quarantined Proxy observation leaves its address guarded: Proxy until the deadline, or the session silent until it |
| RouteRuns.GuardPersists | internal/policy/route_cache.go:144-522 | that guard survives merging, pruning, eviction, quarantine, sweeps and every operation on other sessions |
| RouteRuns.GenerationChangeForgetsProxy | internal/policy/route_cache.go:144-167 | for every public address there is a run that observes a Proxy, changes the generation, observes a Direct and answers Direct while the Proxy deadline lies ahead, so the hypothesis of ProxyWins is needed |
| RouteRuns.QuarantineStaysSilent | internal/policy/route_cache.go:158-163 | from the Observe that answers with a quarantine on, over any run, changes of generation included, no Lookup of any address in that session is answered before the deadline of any Proxy of the batch |
| RouteRuns.AnswersAreJustified | internal/policy/route_cache.go:201-223 | every Direct or Proxy answer goes back to an accepted observation of that decision for that address and session, under the generation passed in, alive at the time of the answer, with no generation change or Invalidate since; and Direct only if neither that batch nor a later one that was taken holds a Proxy for the address, whatever its deadline |
| RouteRuns.EntryIsJustified | internal/policy/route_cache.go:381-449 | every stored entry comes from an accepted observation that nothing has invalidated |
| RouteRuns.InvalidatedStaysSilent | internal/policy/route_cache.go:453-472 | after Invalidate the session answers Unknown for ever, and reopening the scope gives a different session |
| RouteRuns.SweepUnobservable | internal/policy/route_cache.go:475-522 | Sweep(t) changes no Lookup of any session, address or generation at any time from t on |
| RouteRuns.ObserveIgnoresOrder | internal/policy/route_cache.go:249-316 | Observe has the same possible outcomes for every permutation of a batch, with zero-TTL Proxy observations included |
| RouteRuns.QuarantineIsExact | internal/policy/route_cache.go:318-376 | Observe starts a quarantine exactly when the merged Proxy entries alone do not fit the session or global cap, never for a batch without a live Proxy, until after now and no earlier than what it discards |
| RouteRuns.ReachableInv | internal/policy/route_cache.go:144-522 | in every reachable state the accounting equals the entries of the open sessions, all three caps hold, open sessions are unretired and carry the generation of the cache, and a quarantined view is empty |
| RouteMachine.ObserveInv | internal/policy/route_cache.go:381-449 | Observe keeps the accounting and capacity invariant for every choice of evicted entries |
| RouteMachine.OpenInv | internal/policy/route_cache.go:170-197 | Open keeps it, and returns the open session of the scope |
| RouteMachine.SetGenerationInv | internal/policy/route_cache.go:144-167 | setting the total to 0 is right because every open session was emptied |
| RouteMachine.InvalidateInv | internal/policy/route_cache.go:453-472 | Invalidate keeps it, also for a session that is already retired |
| RouteMachine.SweepInv | internal/policy/route_cache.go:475-522 | Sweep keeps it |
| RouteMachine.EvictedFits | internal/policy/route_cache.go:340-376 | once Proxy entries fit, evicting the excess of Direct entries meets both caps |
| RouteView.FoldPicksWinners | internal/policy/route_cache.go:249-273 | folding keeps, for each address of the batch, an observation that wins: Proxy over Direct, then the latest deadline |
| RouteView.FoldIgnoresOrder | internal/policy/route_cache.go:249-273 | two batches with the same observations fold to the same map |
| RouteView.MergeSources | internal/policy/route_cache.go:275-316 | every merged entry has the decision and deadline of an unexpired old entry or of a live folded observation |
| RouteView.MergeKeepsProxy | internal/policy/route_cache.go:275-316 | a live Proxy of either side survives the merge with at least its deadline |
| RouteView.CountByDecision | internal/policy/route_cache.go:357-366 | entries are Direct or Proxy and nothing else, so evicting Directs can only leave Proxies |
| RouteView.SweepViewUnobservable | internal/policy/route_cache.go:486-519 | sweeping one view changes no later answer |
| RouteCaches.FoldBatch | internal/policy/route_cache.go:249-273 | the loop computes the order-free fold |
| RouteCaches.MergeConflictResolution | internal/policy/route_cache.go:275-316 | the loop computes the merge in any map order and reports whether a Proxy came in |
| RouteCaches.MergeObservation | internal/policy/route_cache.go:281-313 | one observation against the existing entry, with removal by a zero-TTL Proxy; what that means is RouteRuns.MergeMeaning |
| RouteCaches.PruneExpired | internal/policy/route_cache.go:426-432 | keeps exactly the unexpired entries |
| RouteCaches.ValidateBatch | internal/policy/route_cache.go:225-247 | accepts exactly the batches whose observations are decided, public IPv4, within MaxTTL and, unless Proxy, unexpired |
| RouteCaches.ValidateFetchIP | internal/policy/fetch_address.go:46-61 | accepts exactly the IPv4 addresses outside every denied network |
| RouteCaches.EvictDirect | internal/policy/route_cache.go:357-366 | evicts only Direct entries, as many as needed or all there are |
| RouteCaches.RecheckIsProxyOverflow | internal/policy/route_cache.go:368-373 | the three conditions together say exactly that the Proxy entries do not fit |
| RouteCaches.NoExcessNoOverflow | internal/policy/route_cache.go:353-355 | without excess there is no overflow and nothing to evict |
| RouteCaches.LatestDeadline | internal/policy/route_cache.go:319-329 | the quarantine deadline is the latest of the old one, the entries and the batch |
| RouteCaches.LatestProxyDeadline | internal/policy/route_cache.go:409-414 | an ongoing quarantine is extended to the latest incoming Proxy deadline |
| RouteCaches.SweepEntries | internal/policy/route_cache.go:493-507 | counts and removes exactly the expired entries |
| RouteCaches.SessionCache.Lookup | internal/policy/route_cache.go:201-223 | answers from one view, as the theorems about answers require |
| RouteCaches.SessionCache.Observe | internal/policy/route_cache.go:381-449 | takes one observation step of the machine, with all its refusals |
| RouteCaches.SessionCache.CheckCapacityAndEvict | internal/policy/route_cache.go:340-376 | quarantines exactly when the Proxy entries overflow, and else leaves a permitted eviction |
| RouteCaches.SessionCache.QuarantineSession | internal/policy/route_cache.go:318-338 | publishes the empty quarantined view and gives its entries back to the total |
| RouteCaches.SessionCache.ExtendQuarantine | internal/policy/route_cache.go:408-424 | extends a running quarantine, the total untouched |
| RouteCaches.SessionCache.Invalidate | internal/policy/route_cache.go:453-472 | takes one invalidation step of the machine |
| RouteCaches.RouteCache.Open | internal/policy/route_cache.go:170-197 | takes one open step, with both refusals |
| RouteCaches.RouteCache.SetPolicyGeneration | internal/policy/route_cache.go:144-167 | takes one generation step |
| RouteCaches.RouteCache.Sweep | internal/policy/route_cache.go:475-522 | takes one sweep step over all open sessions in any order |
| RouteCaches.NewRouteCache | internal/policy/route_cache.go:115-140 | applies defaults, refuses limits over the hard maximums, starts a run |
| Ipv4.PrefixToRange | internal/policy/ipv4.go:22-32 | the range holds exactly the addresses of the prefix, for every length from 0 to 32 |
| Ipv4.RangeOfPrefix | internal/policy/ipv4.go:22-32 | the or with the span gives the last address of the block without carrying |
| Ipv4.OrFillsLowBits | internal/policy/ipv4.go:29-30 | a bitwise or with 2^k - 1 fills the low k bits of a multiple of 2^k |
| Netip.MaskedKeepsCover | internal/policy/ipv4.go:23 | masking changes neither the addresses covered nor validity, and is idempotent |
| Ipv4.Sorted | internal/policy/ipv4.go:71-76 | the sort is ordered by lo, then hi, and a permutation |
| Ipv4.MergeRanges | internal/policy/ipv4.go:66-95 | yields ranges with a gap between neighbours that cover the same addresses, also at 0xffffffff |
| Ipv4.SeparatedIsCanonical | internal/policy/ipv4.go:66-95 | two such lists covering the same addresses are equal |
| Ipv4.NewIPv4Index | internal/policy/ipv4.go:101-109 | the index covers exactly the addresses of its IPv4 prefixes |
| Ipv4.IndexIsCanonical | internal/policy/ipv4.go:101-109 | prefix lists that cover the same addresses have equal indexes |
| Ipv4.Match | internal/policy/ipv4.go:111-124 | true exactly when the unmapped address is IPv4 and some input prefix contains it |
| Ipv4.AcceptedRuleIsValidIff | internal/policy/ipv4.go:42-52 | an accepted CIDR rule is a valid prefix if and only if its length is at most 32 |
| Ipv4.AcceptedAddressIsValid | internal/policy/ipv4.go:54-62 | an accepted address is always a valid rule that covers this address and no other |
| Ipv4.MappedNetworkIsLost | internal/policy/ipv4.go:47-51 | the rule ::ffff:1.2.3.0/120 becomes the zero prefix |
| Domain.NormalizeDomain | internal/policy/domain.go:41-92 | the steps and loops compute the normal form that the rows on spellings characterize, with the IDNA library as a parameter |
| Spellings.TrimSpaceIff | internal/policy/domain.go:42 | trimming removes the blanks around, all of them and nothing else |
| Spellings.SpellingNormalizes | internal/policy/domain.go:41-92 | every spelling of a canonical name, with blanks around it, capitals or a final dot, normalizes to it |
| Spellings.NormalizedIsSpelling | internal/policy/domain.go:41-92 | and off the IDNA path nothing else does |
| Spellings.AsciiPathIff | internal/policy/domain.go:55-58 | the IDNA path is taken exactly by names with a character beyond ASCII or xn-- in any case |
| Spellings.IdnaDecides | internal/policy/domain.go:59-66 | there a name normalizes exactly to the canonical name that the library's answer spells |
| Spellings.RefusedIsRejected | internal/policy/domain.go:43-53 | empty names, refused characters and empty labels are rejected on either path |
| Domain.NormalizeIsFixedPoint | internal/policy/domain.go:41-92 | what normalization returns is canonical, and normalizes to itself always off the IDNA path and on it exactly when the library keeps its own answer |
| Domain.FixedPointIff | internal/policy/domain.go:41-92 | the fixed points are exactly the canonical names, those with an xn-- label as far as the library keeps them |
| Domain.RuleMeaning | internal/policy/domain.go:97-155 | an accepted rule has the normal form of its body as base and covers what its spelling and the list mode say |
| Domain.RuleAcceptedIff | internal/policy/domain.go:97-155 | a rule is accepted exactly when it is no address literal and its body has no asterisk, no leading dot, and normalizes; IPv4 literals are handed on |
| Domain.FlagsUnion | internal/policy/snapshot.go:140-142 | or-ing flags unions what the rules cover |
| Snapshots.MatchCanonicalDomain | internal/policy/snapshot.go:78-98 | the dot-boundary walk is true exactly when some rule covers the name: exact on itself, descendants below, inclusive both |
| Snapshots.MatchDomain | internal/policy/snapshot.go:102-111 | true exactly when some rule covers the normalized name, and so all spellings of a name are answered alike |
| Snapshots.CoversIffHit | internal/policy/snapshot.go:83-97 | some rule covers a name exactly when the flags at some dot boundary hit |
| Snapshots.CompileSnapshot | internal/policy/snapshot.go:128-164 | compiles the merged flags, the distinct masked prefixes and their index, and refuses an empty list |
| Snapshots.CompiledIsUnion | internal/policy/snapshot.go:128-164 | a compiled snapshot covers a name or address exactly when some source alone does |
| Snapshots.DomainsAreUnion | internal/policy/snapshot.go:138-142 | merged flags cover a name exactly when those of some source do |
| Snapshots.DistinctHolds | internal/policy/snapshot.go:143-149 | the collected prefixes are exactly the masked ones of the sources, once each |
| Snapshots.Matcher.Publish | internal/policy/snapshot.go:183-185 | the snapshot given is in force |
| Store.FileStore.Commit | internal/policy/cache.go:90-152 | the file holds the sealed generation exactly when the rename happened, and else the old one |
| Store.FileStore.Load | internal/policy/cache.go:156-183 | returns the file exactly when it is readable and passes every check |
| Store.ChangedFileIsRefused | internal/policy/cache.go:177-180 | a file whose domains or prefixes were changed after the commit does not load, except for the order of the prefixes |
| Store.GenerationToSnapshot | internal/policy/cache.go:186-223 | restores the snapshot exactly when every stored prefix parses |
| Store.DurableFormParsesIff | internal/policy/cache.go:196-203 | the stored prefixes parse if and only if every prefix of every source is valid |
| Store.TextsParseBack | internal/policy/sync.go:324-330 | the printed prefixes parse back to the distinct masked ones, in order |
| Store.DurableMeansLive | internal/policy/cache.go:186-223 | the restored snapshot and the one compiled in the same update have equal rules, index, counts and identity, for every source list |
| Sync.AggregateCandidateRules | internal/policy/sync.go:315-333 | computes the merged flags and distinct prefixes that the snapshot is compiled from, and their number |
| Sync.Syncer.SyncSingleSource | internal/policy/sync.go:246-313 | one source: conditional fetch, reuse after 304, unconditional repetition when nothing is cached, validators carried over |
| Sync.Syncer.CheckShrink | internal/policy/sync.go:335-344 | refuses exactly the candidates with fewer than half of the published rules, unless forced |
| Sync.Syncer.SyncSources | internal/policy/sync.go:367-376 | all sources in order, given up at the first failure |
| Sync.Syncer.CommitAndPublish | internal/policy/sync.go:409-427 | a failed commit changes no rules in memory or on disk; a successful one publishes what was committed |
| Sync.Syncer.ExecuteUpdate | internal/policy/sync.go:356-450 | one update: in progress, failed with store, matcher and caches unchanged, or committed and published |
| SyncOutcomes.PublishedIsWhatWasAnswered | internal/policy/sync.go:246-333 | what an update publishes covers a name or address exactly when the rules some source contributed do: its body unless it answered 304, the held rules after a 304 if there are any, and the body of the repetition otherwise |
| SyncOutcomes.SourceFailsIff | internal/policy/sync.go:367-373 | an update fails for a source exactly when some source contributes nothing |
| SyncOutcomes.UpdateOutcome | internal/policy/sync.go:378-449 | otherwise no rules, and fewer than half of those in force unless forced, are refused, and the rest is published with the next version exactly when the file could be written; what is not published changes nothing |
| SyncOutcomes.ValidatorsFollow | internal/policy/sync.go:234-244 | the next request to a source carries the validators of the answer that counted, and after a 304 without new ones those sent before |
| SyncOutcomes.ValidatorsKeepToTheirURL | internal/policy/sync.go:234-244 | validators are sent only to the address they came from |
| SyncOutcomes.GenerationIDsDiffer | internal/policy/sync.go:390 | updates with different versions or times have different identifiers |
| Sync.Syncer.Recover | internal/policy/sync.go:141-160 | start-up publishes the durable generation exactly when it loads, matches the configuration, parses and has rules |
| SyncRuns.LiveIsAlwaysDurable | internal/policy/sync.go:409-427 | over every run with crashes the snapshot in force is the one on disk |
| SyncRuns.AlwaysAgrees | internal/policy/sync.go:335-450 | over every run, whatever is fetched, unreadable or crashes, the file is loadable with some rules, what is in force agrees with it, a commit in force adds one to the version and obeys the shrink guard, and nothing else changes the file |
| SyncRuns.VersionsIncrease | internal/policy/sync.go:346-354 | an update publishes a larger version than everything published before it, as long as each start in between recovered the file it found |
| SyncRuns.ColdStartBeginsAtOne | internal/policy/sync.go:143-160 | otherwise the process starts empty and its first version is 1 |
| SyncRuns.ProperIsRecoverableIff | internal/policy/sync.go:143-146 | a file the program wrote is recovered exactly under the configuration that wrote it and when its prefixes parse |
| SyncRuns.CommitParsesIff | internal/policy/sync.go:396-420 | the prefixes of a committed file parse exactly when those of the lists it was made of are valid |
| SyncRuns.RestartRecovers | internal/policy/sync.go:141-160 | a restart that can read and parse the file under its configuration recovers at least the last published version, whatever crashed between |
| SyncRuns.ShrinkIsBounded | internal/policy/sync.go:335-344 | without ForceShrink, after n commits at least floor(c0 / 2^n) rules and at least one are left, as long as each start in between recovered |
| SyncRuns.RestartRecoversIff | internal/policy/sync.go:143-160 | a committed candidate is recovered if and only if its prefixes are valid and its version is not 0 |
| SyncRuns.InvalidRuleIsNotRecovered | internal/policy/sync.go:143-160 | the concrete list that is published but not recovered, after which versions restart at 1 |
| SyncRuns.CachedRulesWereFetched | internal/policy/sync.go:262-284 | the rules a process holds for a source are those of the latest body it received for that source in an update it published |
| RateLimit.TokenBucket.Allow | internal/middleware/ratelimit.go:19-35 | one take of any amount: capped refill, then the tokens or the whole seconds to wait |
| RateLimit.RateLimiter.Allow | internal/middleware/ratelimit.go:120-137 | takes from the bucket of the client, a full one when there is none |
| RateLimit.RateLimiter.Cleanup | internal/middleware/ratelimit.go:97-106 | deletes exactly the buckets idle for longer than entryTTL |
| RateLimit.RateLimiter.constructor | internal/middleware/ratelimit.go:50-75 | starts empty with the defaults for parameters that are not positive |
| RateLimit.WaitIsEnoughIff | internal/middleware/ratelimit.go:24-34 | waiting as told is enough if and only if the amount is at most the burst |
| RateLimit.WindowBound | internal/middleware/ratelimit.go:19-35 | in any window of length T after any history a client is allowed at most burst + rate * T requests |
| RateLimit.CleanupUnobservable | internal/middleware/ratelimit.go:97-106 | when rate * entryTTL >= burst, deleting idle buckets changes no answer of any run |
| RateLimit.CleanupUnobservableIff | internal/middleware/ratelimit.go:97-106 | and only then |
| RateLimit.EarlyCleanupIsObservable | internal/middleware/ratelimit.go:97-106 | otherwise this concrete run answers differently with a cleanup in it |
| RateLimit.RetryIsHonoured | internal/middleware/ratelimit.go:29-34 | a refused client that waits the returned time without a request is allowed, whatever others do and whatever is cleaned up |
| RateLimit.RefusalWaits | internal/middleware/ratelimit.go:29-34 | the wait is a whole number of seconds, at least one, rounded up from what is missing and no further, and refusing costs nothing |
| RateLimit.DrainIff | internal/middleware/ratelimit.go:24-27 | k requests at once are all allowed exactly when the bucket holds k tokens |
| RateLimit.RestedClientGetsBurst | internal/middleware/ratelimit.go:120-137 | a client not seen before, or not for burst / rate seconds, gets its whole burst at once and not one request more |
| Leases.AlwaysConsistent | internal/database/awg_ip_allocations.go:37-351 | over every run each (server, ip) has one row and each (server, client) at most one active row |
| Leases.OwnerStays | internal/database/awg_ip_allocations.go:37-351 | only a release or transfer naming the lease, or an adoption by its owner, ends it: no allocation, no adoption by another client |
| Leases.LeaseIsExclusive | internal/database/awg_ip_allocations.go:37-351 | over any undisturbed run exactly its owner has the active lease |
| Leases.AllocateIsSafe | internal/database/awg_ip_allocations.go:37-106 | the address handed out is the caller's active lease and was active under no other client |
| Leases.NewLeaseIsFree | internal/database/awg_ip_allocations.go:73-102 | a new lease lies in the subnet, is not the gateway, and was neither in the configuration nor in any row of the server |
| Leases.RepeatAllocateIsIdempotent | internal/database/awg_ip_allocations.go:58-71 | over any run that does not disturb its lease a repeated allocation for a named client returns an address leased to it and changes no row |
| Leases.FirstTrySucceedsIff | internal/database/awg_ip_allocations.go:73-103 | the first of the fifty tries succeeds if and only if the chosen address is not that of a released row |
| Leases.AllocationNeverCollides | internal/database/awg_ip_allocations.go:56-105 | over every run an allocation for a named client never runs out of tries, since no operation writes a released row |
| LeaseEffects.AllocateOutcome | internal/database/awg_ip_allocations.go:56-103 | over every run an allocation for a named client succeeds exactly when it has a lease or the allocator finds an address, and adds at most one row, the client's |
| LeaseEffects.UsedIPsIff | internal/database/awg_ip_allocations.go:163-205 | the used set holds exactly the trimmed texts of the configuration and of the rows that are not released |
| Leases.ReleasedRowBlocks | internal/database/awg_ip_allocations.go:73-105 | a table with a released row, and an allocator within its contract, for which all fifty tries fail |
| Leases.AnonymousCollides | internal/database/awg_ip_allocations.go:108-113 | with both names empty an allocation on a server fails as long as the lease of an earlier one lasts |
| Leases.AdoptKeeps | internal/database/awg_ip_allocations.go:310-349 | after superseding the leases of the client the upsert meets neither constraint |
| Leases.AdoptIsSafe | internal/database/awg_ip_allocations.go:275-351 | an adoption is refused exactly when the address or client is not named or the address is another's, without change; else the address is the client's active lease |
| LeaseEffects.AdoptOutcome | internal/database/awg_ip_allocations.go:312-349 | an adoption changes only the row of the address and the active rows under the names it compares, which become superseded |
| Leases.AdoptSparesOthersIff | internal/database/awg_ip_allocations.go:312-330 | an adoption leaves the lease of another client alone unless neither the caller nor that client has a client name |
| Leases.AdoptTakesNamelessLease | internal/database/awg_ip_allocations.go:312-330 | the concrete adoption that ends the lease of the client without a name |
| Leases.LeaseDB.FindExistingAllocation | internal/database/awg_ip_allocations.go:108-140 | finds an active lease under either name exactly when there is one |
| Leases.LeaseDB.IsClaimedByOther | internal/database/awg_ip_allocations.go:142-161 | true exactly when the address is active under a name that, trimmed, is none of the client's |
| Leases.OwnIsNotClaimed | internal/database/awg_ip_allocations.go:63-71 | a lease found under one of the client's names is never claimed by another, so the reuse branch always returns |
| Leases.LeaseDB.FetchAllocatedIPs | internal/database/awg_ip_allocations.go:163-185 | the addresses of the rows that are not released |
| Leases.LeaseDB.MergeUsedIPs | internal/database/awg_ip_allocations.go:187-205 | the union of both lists, trimmed, without empty texts |
| Leases.LeaseDB.AllocateAWGClientIP | internal/database/awg_ip_allocations.go:37-106 | one allocation step on the used set, the subnet and its gateway; every try but the first repeats the same collision |
| Leases.LeaseDB.ReleaseAWGClientIP | internal/database/awg_ip_allocations.go:208-240 | removes exactly the rows named by client, address or both; nothing for neither |
| LeaseEffects.ReleaseOutcome | internal/database/awg_ip_allocations.go:208-240 | after a release no row has what was named, and every row with another server, client or address is the same |
| Leases.LeaseDB.TransferAWGClientIPLease | internal/database/awg_ip_allocations.go:244-271 | one transfer step; what it leaves is LeaseEffects.TransferOutcome |
| LeaseEffects.TransferOutcome | internal/database/awg_ip_allocations.go:244-271 | missing parameters, no such row, and a new client that already has an active lease are answered exactly then and change nothing; else the row is the new client's and no other row changes |
| LeaseEffects.TransferMovesLease | internal/database/awg_ip_allocations.go:256-259 | the active lease passes to the new client, and the old one has no row of the address left |
| LeaseEffects.RenamingClashesIff | internal/database/awg_ip_allocations.go:256-262 | the update breaks a constraint exactly when it would give a client its second active lease |
| Leases.LeaseDB.AdoptAWGClientIPLease | internal/database/awg_ip_allocations.go:275-351 | one adoption step: refused, already owned, owned by another, or moved to the address |
| Reconcile.OneLeaseEach | internal/database/migrations_legacy_alloc.go:29-111 | every client of a server that had an active row keeps exactly one, unchanged |
| Reconcile.KeptRowIsNamed | internal/database/migrations_legacy_alloc.go:91-97 | it is one that a user connection of the client names, if any row is, and otherwise the lowest |
| Reconcile.FirstConnectionDecides | internal/database/migrations_legacy_alloc.go:156-180 | the first connection that names any active row decides, its assigned address before its other one, and of several matching rows the lowest |
| Reconcile.LosersAreSuperseded | internal/database/migrations_legacy_alloc.go:99-106 | the other active rows become superseded and are otherwise as they were |
| Reconcile.ChosenIsUnique | internal/database/migrations_legacy_alloc.go:174-182 | the first candidate with the lowest matching row decides uniquely |
| Reconcile.ChosenIgnoresDuplicates | internal/database/migrations_legacy_alloc.go:30-39 | removing identical duplicates does not change which row is kept |
| Reconcile.OnlyDuplicatesAreDeleted | internal/database/migrations_legacy_alloc.go:30-39 | rows are deleted exactly when an identical active row has a lower id, and the lowest of them stays |
| Reconcile.IndexCanBeCreated | internal/database/migrations_legacy_alloc.go:114-120 | afterwards the unique index on active clients holds |
| Reconcile.SecondRunChangesNothing | internal/database/migrations_legacy_alloc.go:29-111 | a second run, with any connections and at any time, changes no row |
| Reconcile.LegacyDB.Reconcile | internal/database/migrations_legacy_alloc.go:19-123 | the statements and loops, with groups in any order, produce the reconciled table |
| Reconcile.LegacyDB.DeleteDuplicates | internal/database/migrations_legacy_alloc.go:30-39 | deletes exactly the identical duplicates |
| Reconcile.LegacyDB.FetchActive | internal/database/migrations_legacy_alloc.go:125-144 | the active rows of a client in ascending order of id |
| Reconcile.LegacyDB.FirstMatch | internal/database/migrations_legacy_alloc.go:174-182 | the nested loops find the lowest row of the first candidate that matches any, or -1 when none does |
| Reconcile.LegacyDB.CandidateIPs | internal/database/migrations_legacy_alloc.go:146-172 | collects the named addresses of the connections in order |
| ClientParams.CandidatesAreNamed | internal/database/migrations_legacy_alloc.go:146-172 | the candidates match an address exactly when some connection of the client names it |
| Traffic.TotalsAreConserved | internal/database/users.go:473-498 | lifetime counters grow by exactly the added bytes whatever resets run between |
| Traffic.TotalIsSumOfDirections | internal/database/users.go:473-498 | traffic_total stays the sum of its directions |
| Traffic.UsageIsConserved | internal/database/users.go:473-553 | usage is the old usage plus added bytes less what resets removed |
| Traffic.CountersStayBounded | internal/database/users.go:473-553 | no counter gets negative, and monthly counters never exceed lifetime ones |
| Traffic.MonthMarkerIff | internal/database/users.go:517-519 | the monthly marker is that of an earlier moment exactly while no monthly reset has taken effect since, unless one wrote that marker back |
| Traffic.OneMonthlyResetPerMarker | internal/database/users.go:509-531 | after a monthly reset has taken effect no other holding the same marker does, unless one in between wrote it back |
| Traffic.OnePeriodResetPerMarker | internal/database/users.go:536-553 | the same for period resets and their own marker |
| Traffic.MonthlyResetTakesIff | internal/database/users.go:509-531 | a monthly reset with the marker of an earlier moment, absent ones included, takes effect if and only if the marker has not changed since |
| Traffic.PeriodResetTakesIff | internal/database/users.go:536-553 | a period reset takes effect exactly with the marker and strategy it finds, and changes only usage and its marker |
| Traffic.FreshMonthsMoveOn | internal/database/users.go:506-519 | no marker is written back when monthly resets that take effect carry different times |
| Traffic.RepeatedResetTakesIff | internal/database/users.go:518-519 | a repeated reset is accepted if and only if the first wrote back the marker it found |
| Traffic.MonthlyResetKeepsLaterBytes | internal/database/users.go:509-531 | a monthly reset that takes effect with the monthly counters of an earlier moment leaves in them exactly the bytes added since |
| Traffic.PeriodResetKeepsLaterBytes | internal/database/users.go:536-553 | a period reset that takes effect with the usage of an earlier moment leaves exactly the usage added since |
| Traffic.MonthlyResetKeepsLaterUsageIff | internal/database/users.go:517-519 | the monthly reset leaves the usage added since its snapshot if and only if, on the row it finds, usage has grown as much as the lifetime total or the total has not grown |
| Traffic.MonthlyResetKeepsLaterUsage | internal/database/users.go:517-519 | in particular while last_reset_at is that of the snapshot |
| Traffic.LaterUsageIsLost | internal/service/orchestrator/traffic.go:364-369 | the concrete interleaving, with a snapshot as the orchestrator takes it, that loses 7 bytes of usage |
| Traffic.VerdictChangesAreNotified | internal/database/peer_changes.go:468-496 | every change of the over-quota verdict by an addition or reset is notified; additions notify only then |
| Traffic.DifferentVerdictsAreNotified | internal/database/peer_changes.go:468-496 | between two moments with different verdicts the listener was called |
| Traffic.UserDB.AddUserTraffic | internal/database/peer_changes.go:468-478 | adds to all six counters of one row and notifies exactly on a change of its verdict |
| Traffic.UserDB.ResetUserMonthlyTraffic | internal/database/peer_changes.go:481-487 | applies the reset exactly when the row exists with the expected marker, and notifies exactly then |
| Traffic.UserDB.ResetUserPeriodTraffic | internal/database/peer_changes.go:490-496 | the same with marker and strategy |
| Tunnels.SwapIsFreeOfABA | internal/database/backend_tunnels.go:426-443 | a swap holding an earlier version succeeds only on the very row that was read, untouched since |
| Tunnels.SwapSucceedsIff | internal/database/backend_tunnels.go:426-443 | with the row as read and enabled, it succeeds exactly when no writer has updated it since |
| Tunnels.OneSwapPerVersion | internal/database/backend_tunnels.go:426-443 | of several swaps holding the same version at most one succeeds |
| Tunnels.SwapAcrossIntentFails | internal/database/backend_tunnels.go:376-443 | a swap prepared before a change of intent changes nothing |
| Tunnels.SameVersionIff | internal/database/backend_tunnels.go:341-443 | a version recurs exactly when no writer updated the row, and then the row is the same |
| Tunnels.VersionCountsTouches | internal/database/backend_tunnels.go:341-443 | the version counts the updates |
| Tunnels.WriterUpdatesIff | internal/database/backend_tunnels.go:341-443 | which rows each writer updates, and that it leaves the others as they are |
| Tunnels.HealthIsLastWritten | internal/database/backend_tunnels.go:341-443 | a row has the status, latency and check time of the last health writer that updated it |
| Tunnels.ReasonAndEndpoint | internal/database/backend_tunnels.go:341-443 | reason and endpoint are what the writer that is given one writes, and unchanged by the others |
| Tunnels.IntentStays | internal/database/backend_tunnels.go:376-390 | only the administrative writer changes enabled |
| Tunnels.IntentIsLastWritten | internal/database/backend_tunnels.go:376-390 | enabled is what that writer wrote last |
| Tunnels.DisabledHealthStays | internal/database/backend_tunnels.go:341-443 | while a tunnel is disabled only its endpoint and version can change |
| Tunnels.TunnelDB.UpdateBackendTunnelStatus | internal/database/backend_tunnels.go:341-353 | writes an enabled row and bumps its version; nothing else |
| Tunnels.TunnelDB.UpdateBackendTunnelStatusWithReason | internal/database/backend_tunnels.go:356-372 | the same with a reason, refused for the administrative one |
| Tunnels.TunnelDB.UpdateBackendTunnelEnabled | internal/database/backend_tunnels.go:376-390 | writes intent and reason; a missing row is a success |
| Tunnels.TunnelDB.ResetEnabledBackendTunnelHealthForStartup | internal/database/backend_tunnels.go:396-408 | rewrites every enabled row |
| Tunnels.TunnelDB.UpdateBackendTunnelEndpoint | internal/database/backend_tunnels.go:411-421 | writes the endpoint of any row |
| Tunnels.TunnelDB.CompareAndSwapTunnelStatus | internal/database/backend_tunnels.go:426-443 | succeeds exactly on the expected enabled row |
| Captcha.OneTicketPerChallenge | internal/captcha/captcha.go:64-81 | over any run each challenge yields at most one ticket |
| Captcha.OneAttemptPerChallenge | internal/captcha/captcha.go:62-74 | a second attempt on a challenge is rejected, even after a failed one |
| Captcha.TicketIsAcceptedOnce | internal/captcha/captcha.go:85-94 | a ticket is accepted at most once |
| Captcha.AcceptedTicketWasEarned | internal/captcha/captcha.go:62-99 | a ticket is accepted only for the challenge whose verification issued it within tolerance before expiry, and within the ticket's own time |
| Captcha.HonestLogin | internal/captcha/captcha.go:51-94 | a slide hit in time yields its ticket, which is accepted in time for its challenge, as long as neither is used in between and the store is not full |
| Captcha.SolvedSlide | internal/captcha/captcha.go:51-81 | a successful verification solved a slide created before, in time and within tolerance |
| Captcha.SizeIsBounded | internal/captcha/captcha.go:108-136 | the store never holds more than maxEntries |
| Captcha.UsedIsGone | internal/captcha/captcha.go:71-92 | an identifier that was used never comes back |
| Captcha.EntryOrigin | internal/captcha/captcha.go:51-113 | every entry was created by an earlier operation |
| Captcha.UnusedEntryStays | internal/captcha/captcha.go:64-93 | while the store is not full an entry stays until it expires or is used; tickets and challenges do not use each other up |
| Captcha.Store.NewSlide | internal/captcha/captcha.go:51-60 | inserts the challenge, or nothing when no identifier could be made |
| Captcha.Store.VerifySlide | internal/captcha/captcha.go:64-81 | consumes a live challenge whatever the outcome, and issues a ticket exactly for a timely hit |
| Captcha.Store.ConsumeTicket | internal/captcha/captcha.go:85-94 | consumes a ticket whatever the outcome, and accepts it exactly for its challenge and in time |
| Captcha.Store.SweepLocked | internal/captcha/captcha.go:115-136 | removes what expired and, forced on a full store, the half that expires first, ties in any order |
| Captcha.InsertDropsAtMostHalf | internal/captcha/captcha.go:108-135 | an insertion drops an entry that has not expired only from a full store, together with the half of it that expires first |
| Captcha.LenCountsTheLiving | internal/captcha/captcha.go:101-106 | Len drops what has expired and counts the rest |
| HeaderRanges.TextRoundTrip | internal/models/range.go:37-42 | parsing the text of a valid range gives it back |
| HeaderRanges.TextIsInjective | internal/models/range.go:37-42 | different ranges have different texts |
| HeaderRanges.ParseStringIff | internal/models/range.go:154-188 | the parser accepts exactly the texts that spell a range, with that range |
| HeaderRanges.AcceptedTextNormalizes | internal/models/range.go:154-188 | an accepted text gives a valid range whose printed form means the same |
| HeaderRanges.AcceptedIsValidIff | internal/models/range.go:236-253 | an accepted value is a valid range unless it was an invalid range to begin with |
| HeaderRanges.FloatIsRoundedDown | internal/models/range.go:204-209 | floats are accepted exactly in the 32-bit domain and are rounded down |
| HeaderRanges.JsonRoundTrip | internal/models/range.go:81-107 | unmarshalling what was marshalled gives the range back |
| HeaderRanges.UnmarshalledIsValid | internal/models/range.go:88-152 | every accepted document gives a valid range |
| HeaderRanges.BareDocuments | internal/models/range.go:88-127 | bare numbers mean what they mean as values, and an empty document and null are the zero range |
| HeaderRanges.ObjectIsAcceptedIff | internal/models/range.go:129-151 | an object is accepted if and only if its bounds are ordered, in the domain and not both 0 |
| HeaderRanges.Field.UnmarshalJSON | internal/models/range.go:88-152 | writes the receiver exactly when the document is accepted, and keeps it valid |
| HeaderRanges.OverlapIffCommonValue | internal/models/range.go:55-62 | two ranges have a common value exactly when they overlap and neither is empty |
| HeaderRanges.PickOneIff | internal/models/range.go:66-78 | a value of the range is picked if and only if the range is not the whole domain |

## Left out

- RouteRuns.ProxyWins: assumes that no effective generation change lies between the observation and the lookup, where the source drops the evidence on purpose (RouteRuns.GenerationChangeForgetsProxy).
- RouteRuns.QuarantineIsExact: a Direct observation that a Proxy of the same batch replaces before the merge is not among the discarded ones whose deadlines are outlived, because the source never stores it.
- SyncRuns.VersionsIncrease: for runs of fewer than 2^64 steps in which each start in between recovers the file it finds; a start that does not begins at version 1 (SyncRuns.ColdStartBeginsAtOne).
- SyncRuns.RestartRecovers: under the same condition, and a configuration unchanged since the commit.
- SyncRuns.ShrinkIsBounded: under the same condition, since a process that recovered nothing has nothing to compare with.
- Store.DurableMeansLive: source identifiers and creation time are not compared, since recovery sorts the former and takes the latter from the file.
- RateLimit.WindowBound: needs rate * entryTTL >= burst, without which idle buckets come back full too early.
- Leases.RepeatAllocateIsIdempotent: not for a client without a name, which the source never recognises.
- Traffic.MonthlyResetKeepsLaterBytes: assumes that no monthly reset that takes effect since the snapshot writes back the marker of the snapshot, which the source could only do within one second (Traffic.RepeatedResetTakesIff).
- Sync.Syncer.SyncSingleSource: the per-source statistics it also returns are not modelled.
- Tunnels.SwapIsFreeOfABA: over runs of the dedicated writers; the generic column writer and the deletion of rows are not modelled.
- Captcha.AcceptedTicketWasEarned: identifiers are assumed not to repeat.
- Concurrency inside an operation: mutexes and the write lock make each operation one step, and the atomic view of a session is one field.
- Time before Go's zero time: `now` is a natural number in the route cache.
- Domain.NormalizeIsFixedPoint: what ToASCII of the IDNA profile does is a parameter, so on that path being a fixed point is exactly that the library keeps its own answer.
- The parsers of package netip and package net, SHA-256 and JSON: addresses, prefixes and digests are values, and a document is what the library reads it as; digests do not collide.
- Fetching and list parsing: a fetch is any response or failure, with the parsed rules as given; redirects, limits and TLS are not part of this model.
- The scheduling loop, the request channel of `Sync` and per-source statistics.
- Limiter arithmetic is over reals; rounding of floating-point numbers is not modelled.
- awg.GetNextIP: taken by contract as a function of the used set and the subnet, returning a trimmed address text of the subnet outside the used set that is not the gateway, or none.
- Database errors other than constraint violations, encryption, and 64-bit overflow of counters.
- The generic column writers, bulk monthly reset, backup and the other migrations: outside the protocols above.
- Middleware, handlers, the cleanup timer and `Stop` of the limiter: plumbing.
