/** Whole runs of the route cache: any interleaving of its operations, in time order. */
module RouteRuns {
  import opened Netip
  import opened Instants
  import opened Sets
  import opened RouteView
  import opened RouteMachine

  datatype Event =
    | OpenScope(scope: Scope)
    | Observe(id: nat, generation: string, batch: seq<Observation>, now: nat)
    | Lookup(id: nat, ip: Addr, generation: string, now: nat)
    | Sweep(now: nat)
    | SetGeneration(generation: string)
    | Invalidate(id: nat)

  datatype Reply = OpenR(open: OpenReply) | ObserveR(outcome: Outcome) | LookupR(decision: Decision) | Done

  datatype Move = Move(pre: Cache, event: Event, reply: Reply, post: Cache)

  ghost predicate Took(m: Move) {
    match m.event
    case OpenScope(scope) =>
      m.reply.OpenR? && OpenStep(m.pre, scope, m.post, m.reply.open)
    case Observe(id, generation, batch, now) =>
      && m.reply.ObserveR? && m.pre.HasHandle(id)
      && ObserveStep(m.pre, id, generation, batch, now, m.post, m.reply.outcome)
    case Lookup(id, ip, generation, now) =>
      && m.pre.HasHandle(id) && m.post == m.pre
      && m.reply == LookupR(LookupView(m.pre.View(id), ip, generation, now))
    case Sweep(now) => m.reply == Done && m.post == SweepStep(m.pre, now)
    case SetGeneration(generation) => m.reply == Done && m.post == SetGenerationStep(m.pre, generation)
    case Invalidate(id) => m.reply == Done && m.pre.HasHandle(id) && m.post == InvalidateStep(m.pre, id)
  }

  predicate Timed(e: Event) { e.Observe? || e.Lookup? || e.Sweep? }

  /** What NewRouteCache returns once the limits are defaulted. */
  ghost predicate Initial(c: Cache) {
    && c.cfg.maxSessions > 0 && c.cfg.maxPerSession > 0 && c.cfg.maxTotal > 0 && c.cfg.maxTTL > 0
    && c.generation == "" && c.handles == [] && c.sessions == map[] && c.total == 0
  }

  ghost predicate Linked(run: seq<Move>) {
    && (forall i {:trigger Took(run[i])} :: 0 <= i < |run| ==> Took(run[i]))
    && (forall i {:trigger run[i].pre} :: 0 < i < |run| ==> run[i].pre == run[i - 1].post)
  }

  ghost predicate InTimeOrder(run: seq<Move>) {
    forall i, j :: 0 <= i < j < |run| && Timed(run[i].event) && Timed(run[j].event) ==>
      run[i].event.now <= run[j].event.now
  }

  ghost predicate IsRun(run: seq<Move>) {
    && Linked(run) && InTimeOrder(run)
    && (run != [] ==> Initial(run[0].pre))
  }

  /** The policy generation really changes here. */
  predicate ChangesGeneration(m: Move) {
    m.event.SetGeneration? && m.event.generation != m.pre.generation
  }

  // ---- the invariant is reachable-state safety -----------------------------

  lemma StepInv(m: Move)
    requires Inv(m.pre) && Took(m)
    ensures Inv(m.post) && |m.pre.handles| <= |m.post.handles|
  {
    match m.event
    case OpenScope(scope) => OpenInv(m.pre, scope, m.post, m.reply.open);
    case Observe(id, generation, batch, now) =>
      ObserveInv(m.pre, id, generation, batch, now, m.post, m.reply.outcome);
    case Lookup(_, _, _, _) =>
    case Sweep(now) => SweepInv(m.pre, now);
    case SetGeneration(generation) => SetGenerationInv(m.pre, generation);
    case Invalidate(id) => InvalidateInv(m.pre, id);
  }

  /** In every reachable state the counter is exact, every cap holds, the open
      sessions are the unretired ones under the cache's generation, and a view
      with a quarantine deadline holds no entries. */
  lemma {:induction false} ReachableInv(run: seq<Move>, i: nat)
    requires IsRun(run) && i < |run|
    ensures Inv(run[i].pre) && Inv(run[i].post)
  {
    if i > 0 { ReachableInv(run, i - 1); }
    assert Took(run[i]);
    StepInv(run[i]);
  }

  // ---- PROXY wins ----------------------------------------------------------

  predicate ProxyUntil(entries: Entries, ip: U32, d: Time) {
    ip in entries && entries[ip].decision == Proxy && entries[ip].expiresAt >= d
  }

  /** The view cannot answer Direct for ip before d. */
  ghost predicate Guarded(v: View, ip: U32, d: Time) {
    v.retired || v.unknownUntil >= d || ProxyUntil(v.entries, ip, d)
  }

  lemma GuardStarts(m: Move, o: Observation)
    requires Inv(m.pre) && Took(m) && m.event.Observe?
    requires o in m.event.batch && o.decision == Proxy && o.expiresAt > m.event.now
    requires m.reply.outcome in {Accepted, CapacityExceeded}
    ensures m.post.HasHandle(m.event.id) && o.ip.V4?
    ensures Guarded(m.post.View(m.event.id), o.ip.u, o.expiresAt)
  {
    var c, id, batch := m.pre, m.event.id, m.event.batch;
    assert HandleInv(c, id);
    FoldPicksWinners(batch);
    assert Wins(batch, Fold(batch)[o.ip.u]);
    if Quarantined(c.View(id), m.event.now) {
      assert Fold(batch)[o.ip.u].expiresAt in ProxyDeadlines(Fold(batch));
    } else {
      GuardThroughMerge(c, id, batch, m.event.now, m.post, m.reply.outcome, o.ip.u, o.expiresAt);
    }
  }

  /** Past the early exits, Observe keeps the guard, or sets it up when the batch
      holds the Proxy. */
  lemma GuardThroughMerge(c: Cache, id: nat, batch: seq<Observation>, now: nat, c': Cache, r: Outcome, ip: U32, d: Time)
    requires Inv(c) && Reaches(c, id, c.generation, batch, now) && now < d
    requires ObserveStep(c, id, c.generation, batch, now, c', r)
    requires || ProxyUntil(c.View(id).entries, ip, d)
             || (ip in Fold(batch) && Fold(batch)[ip].decision == Proxy && Fold(batch)[ip].expiresAt >= d)
    ensures c'.HasHandle(id) && Guarded(c'.View(id), ip, d)
  {
    var v := c.View(id);
    var merged := Merged(v, Fold(batch), now);
    assert HandleInv(c, id);
    GuardedMerge(v, batch, now, ip, d);
    if !ProxiesOverflow(c, v, merged) {
      var kept :| Admitted(c, id, merged, kept, c');
      assert ip in kept;
    }
  }

  /** A call of Observe that reaches the merge. */
  ghost predicate Reaches(c: Cache, id: nat, generation: string, batch: seq<Observation>, now: nat) {
    && c.HasHandle(id) && !c.View(id).retired
    && generation != "" && generation == c.generation
    && batch != [] && ValidBatch(batch, now, c.cfg.maxTTL)
    && (c.View(id).unknownUntil == 0 || now >= c.View(id).unknownUntil)
  }

  lemma GuardedMerge(v: View, batch: seq<Observation>, now: nat, ip: U32, d: Time)
    requires Decided(batch) && DecidedEntries(v.entries) && now < d
    requires var folded := Fold(batch);
             || ProxyUntil(v.entries, ip, d)
             || (ip in folded && folded[ip].decision == Proxy && folded[ip].expiresAt >= d)
    ensures ProxyUntil(Merged(v, Fold(batch), now), ip, d)
    ensures Latest(v.unknownUntil, Deadlines(v.entries) + FoldedDeadlines(Fold(batch))) >= d
  {
    var folded := Fold(batch);
    FoldPicksWinners(batch);
    MergeKeepsProxy(v.entries, folded, now, ip, d);
    if ip in v.entries && v.entries[ip].expiresAt >= d {
      assert v.entries[ip].expiresAt in Deadlines(v.entries) + FoldedDeadlines(folded);
    } else {
      assert folded[ip].expiresAt in Deadlines(v.entries) + FoldedDeadlines(folded);
    }
  }

  lemma GuardThroughObserve(m: Move, ip: U32, d: Time)
    requires Inv(m.pre) && Took(m) && m.event.Observe? && m.event.now < d
    requires Guarded(m.pre.View(m.event.id), ip, d)
    ensures m.post.HasHandle(m.event.id) && Guarded(m.post.View(m.event.id), ip, d)
  {
    assert HandleInv(m.pre, m.event.id);
    if Reaches(m.pre, m.event.id, m.event.generation, m.event.batch, m.event.now) {
      GuardThroughMerge(m.pre, m.event.id, m.event.batch, m.event.now, m.post, m.reply.outcome, ip, d);
    }
  }

  /** Every other step, and every step about another session. */
  lemma GuardThroughOther(m: Move, id: nat, ip: U32, d: Time)
    requires Took(m) && m.pre.HasHandle(id) && d > 0
    requires !(m.event.Observe? && m.event.id == id)
    requires Guarded(m.pre.View(id), ip, d)
    requires Timed(m.event) ==> m.event.now < d
    requires !ChangesGeneration(m)
    ensures m.post.HasHandle(id) && Guarded(m.post.View(id), ip, d)
  {
  }

  lemma GuardStep(m: Move, id: nat, ip: U32, d: Time)
    requires Inv(m.pre) && Took(m) && m.pre.HasHandle(id) && d > 0
    requires Guarded(m.pre.View(id), ip, d)
    requires Timed(m.event) ==> m.event.now < d
    requires !ChangesGeneration(m)
    ensures m.post.HasHandle(id) && Guarded(m.post.View(id), ip, d)
  {
    if m.event.Observe? && m.event.id == id {
      GuardThroughObserve(m, ip, d);
    } else {
      GuardThroughOther(m, id, ip, d);
    }
  }

  lemma {:induction false} GuardPersists(run: seq<Move>, i: nat, j: nat, id: nat, ip: U32, d: Time)
    requires IsRun(run) && i < j < |run| && d > 0
    requires run[i].post.HasHandle(id) && Guarded(run[i].post.View(id), ip, d)
    requires forall k :: i < k < j && Timed(run[k].event) ==> run[k].event.now < d
    requires forall k :: i < k < j ==> !ChangesGeneration(run[k])
    ensures run[j].pre.HasHandle(id) && Guarded(run[j].pre.View(id), ip, d)
  {
    if i + 1 < j {
      GuardPersists(run, i, j - 1, id, ip, d);
      ReachableInv(run, j - 1);
      assert Took(run[j - 1]);
      GuardStep(run[j - 1], id, ip, d);
    }
  }

  /** PROXY wins: once a Proxy observation with deadline d was taken or answered with
      a quarantine, no lookup of that address in that session before d returns Direct,
      as long as the policy generation does not change. Merging, eviction, quarantine,
      sweeping, other sessions and even Invalidate may come in between. */
  lemma ProxyWins(run: seq<Move>, i: nat, j: nat, o: Observation)
    requires IsRun(run) && i < j < |run|
    requires run[i].event.Observe? && o in run[i].event.batch && o.decision == Proxy
    requires run[i].reply in {ObserveR(Accepted), ObserveR(CapacityExceeded)}
    requires run[j].event.Lookup? && run[j].event.id == run[i].event.id && run[j].event.ip == o.ip
    requires run[j].event.now < o.expiresAt
    requires forall k :: i < k < j ==> !ChangesGeneration(run[k])
    ensures run[j].reply != LookupR(Direct)
  {
    var id := run[i].event.id;
    assert run[i].event.now <= run[j].event.now;
    ReachableInv(run, i);
    assert Took(run[i]);
    GuardStarts(run[i], o);
    GuardPersists(run, i, j, id, o.ip.u, o.expiresAt);
    assert Took(run[j]);
  }

  // ---- quarantine outlasts everything --------------------------------------

  /** The view answers nothing before d. */
  predicate Silent(v: View, d: Time) { v.retired || v.unknownUntil >= d }

  lemma SilentStep(m: Move, id: nat, d: Time)
    requires Took(m) && m.pre.HasHandle(id) && d > 0 && Silent(m.pre.View(id), d)
    requires Timed(m.event) ==> m.event.now < d
    ensures m.post.HasHandle(id) && Silent(m.post.View(id), d)
  {
  }

  lemma SilentMove(run: seq<Move>, k: nat, id: nat, d: Time)
    requires IsRun(run) && k < |run| && d > 0
    requires run[k].pre.HasHandle(id) && Silent(run[k].pre.View(id), d)
    requires Timed(run[k].event) ==> run[k].event.now < d
    ensures run[k].post.HasHandle(id) && Silent(run[k].post.View(id), d)
  {
    SilentStep(run[k], id, d);
  }

  lemma {:induction false} SilencePersists(run: seq<Move>, i: nat, j: nat, id: nat, d: Time)
    requires IsRun(run) && i < j < |run| && d > 0
    requires run[i].post.HasHandle(id) && Silent(run[i].post.View(id), d)
    requires forall k :: i < k < j && Timed(run[k].event) ==> run[k].event.now < d
    ensures run[j].pre.HasHandle(id) && Silent(run[j].pre.View(id), d)
  {
    if i + 1 < j {
      SilencePersists(run, i, j - 1, id, d);
      SilentMove(run, j - 1, id, d);
    }
  }

  /** A quarantine holds over every run, changes of generation included: from the Observe
      that answered with it no lookup of any address in that session gets an answer
      before the deadline of any Proxy of the batch. */
  lemma QuarantineStaysSilent(run: seq<Move>, i: nat, j: nat, o: Observation)
    requires IsRun(run) && i < j < |run|
    requires run[i].event.Observe? && run[i].reply == ObserveR(CapacityExceeded)
    requires o in run[i].event.batch && o.decision == Proxy
    requires run[j].event.Lookup? && run[j].event.id == run[i].event.id && run[j].event.now < o.expiresAt
    ensures run[j].reply == LookupR(Unknown)
  {
    var id := run[i].event.id;
    assert run[i].event.now <= run[j].event.now;
    ReachableInv(run, i);
    assert Took(run[i]);
    QuarantineCovers(run[i], o);
    SilencePersists(run, i, j, id, o.expiresAt);
    assert Took(run[j]);
  }

  lemma QuarantineCovers(m: Move, o: Observation)
    requires Inv(m.pre) && Took(m) && m.event.Observe? && m.reply == ObserveR(CapacityExceeded)
    requires o in m.event.batch && o.decision == Proxy
    ensures m.post.HasHandle(m.event.id) && m.post.View(m.event.id).unknownUntil >= o.expiresAt
  {
    var c, id, batch := m.pre, m.event.id, m.event.batch;
    FoldPicksWinners(batch);
    assert Wins(batch, Fold(batch)[o.ip.u]);
    if Quarantined(c.View(id), m.event.now) {
      assert Fold(batch)[o.ip.u].expiresAt in ProxyDeadlines(Fold(batch));
    } else {
      QuarantineIsExact(c, id, m.event.generation, batch, m.event.now, m.post, CapacityExceeded);
    }
  }

  // ---- a change of generation forgets --------------------------------------

  /** A cache with one session. */
  function Single(generation: string, entries: Entries): Cache {
    Cache(Config(4, 16, 64, 1000), generation, [Session(Scope("s", 1), RouteView.View(entries, generation, 0, false))],
          map[Scope("s", 1) := 0], |entries|)
  }

  lemma OneFits(c: Cache, entries: Entries, ip: U32)
    requires c == Single(c.generation, map[]) && entries.Keys == {ip}
    ensures !ProxiesOverflow(c, c.View(0), entries) && |entries| == 1
  {
    assert |entries| == |entries.Keys|;
    SubsetSize(KeysOf(entries, Proxy), {ip});
  }

  lemma SingleObserves(generation: string, o: Observation, now: nat)
    requires generation != "" && ValidObservation(o, now, 1000) && o.expiresAt > now
    ensures ObserveStep(Single(generation, map[]), 0, generation, [o], now,
                        Single(generation, map[o.ip.u := Entry(o.decision, o.expiresAt)]), Accepted)
  {
    var c := Single(generation, map[]);
    var entries := map[o.ip.u := Entry(o.decision, o.expiresAt)];
    assert [o][..0] == [] && Fold([o]) == map[o.ip.u := o];
    assert Merged(c.View(0), Fold([o]), now) == entries;
    OneFits(c, entries, o.ip.u);
    assert Admitted(c, 0, entries, entries, Single(generation, entries));
  }

  /** Without the condition on the generation PROXY need not win: for every public address
      there is a run with a Proxy observation in force until 100, a change of generation,
      a Direct under the new one, and at 3 the answer Direct. */
  lemma GenerationChangeForgetsProxy(ip: U32) returns (run: seq<Move>)
    requires FetchAllowed(ip)
    ensures IsRun(run) && |run| == 6
    ensures run[2].event == Observe(0, "g1", [Observation(V4(ip), Proxy, 100)], 1) && run[2].reply == ObserveR(Accepted)
    ensures run[5].event == Lookup(0, V4(ip), "g2", 3) && run[5].reply == LookupR(Direct)
  {
    run := ForgettingRun(ip);
    ForgettingIsLinked(ip);
    ForgettingIsInOrder(ip);
  }

  function Forgetting(ip: U32, k: nat): Move
    requires k < 6
  {
    var c3, c5 := Single("g1", map[ip := Entry(Proxy, 100)]), Single("g2", map[ip := Entry(Direct, 100)]);
    match k
    case 0 => Move(Single("", map[]).(handles := [], sessions := map[]), OpenScope(Scope("s", 1)), OpenR(Opened(0)), Single("", map[]))
    case 1 => Move(Single("", map[]), SetGeneration("g1"), Done, Single("g1", map[]))
    case 2 => Move(Single("g1", map[]), Observe(0, "g1", [Observation(V4(ip), Proxy, 100)], 1), ObserveR(Accepted), c3)
    case 3 => Move(c3, SetGeneration("g2"), Done, Single("g2", map[]))
    case 4 => Move(Single("g2", map[]), Observe(0, "g2", [Observation(V4(ip), Direct, 100)], 2), ObserveR(Accepted), c5)
    case 5 => Move(c5, Lookup(0, V4(ip), "g2", 3), LookupR(Direct), c5)
  }

  function ForgettingRun(ip: U32): (run: seq<Move>)
    ensures |run| == 6 && forall k :: 0 <= k < 6 ==> run[k] == Forgetting(ip, k)
  {
    seq(6, k requires 0 <= k < 6 => Forgetting(ip, k))
  }

  lemma ForgettingIsLinked(ip: U32)
    requires FetchAllowed(ip)
    ensures Linked(ForgettingRun(ip))
  {
    var run := ForgettingRun(ip);
    forall i | 0 <= i < |run| ensures Took(run[i]) { ForgettingTakes(ip, i); }
    forall i | 0 < i < |run| ensures run[i].pre == run[i - 1].post { ForgettingFollows(ip, i); }
  }

  lemma ForgettingFollows(ip: U32, k: nat)
    requires 0 < k < 6
    ensures Forgetting(ip, k).pre == Forgetting(ip, k - 1).post
  {
  }

  lemma ForgettingIsInOrder(ip: U32)
    ensures InTimeOrder(ForgettingRun(ip))
  {
    var run := ForgettingRun(ip);
    forall k | 0 <= k < 6 && Timed(run[k].event) ensures run[k].event.now == k / 2 + (if k == 5 then 1 else 0) {
    }
  }

  lemma ForgettingTakes(ip: U32, k: nat)
    requires FetchAllowed(ip) && k < 6
    ensures Took(Forgetting(ip, k))
  {
    match k
    case 0 => SingleOpens(Forgetting(ip, 0));
    case 1 => SingleChanges(Forgetting(ip, 1), "", map[], "g1");
    case 2 => SingleTakes(Forgetting(ip, 2), "g1", Observation(V4(ip), Proxy, 100), 1);
    case 3 => SingleChanges(Forgetting(ip, 3), "g1", map[ip := Entry(Proxy, 100)], "g2");
    case 4 => SingleTakes(Forgetting(ip, 4), "g2", Observation(V4(ip), Direct, 100), 2);
    case 5 => SingleAnswers(Forgetting(ip, 5), ip);
  }

  lemma SingleOpens(m: Move)
    requires m == Move(Single("", map[]).(handles := [], sessions := map[]), OpenScope(Scope("s", 1)), OpenR(Opened(0)), Single("", map[]))
    ensures Took(m)
  {
  }

  lemma SingleChanges(m: Move, was: string, entries: Entries, generation: string)
    requires m == Move(Single(was, entries), SetGeneration(generation), Done, Single(generation, map[])) && was != generation
    ensures Took(m)
  {
  }

  lemma SingleTakes(m: Move, generation: string, o: Observation, now: nat)
    requires generation != "" && ValidObservation(o, now, 1000) && o.expiresAt > now
    requires m == Move(Single(generation, map[]), Observe(0, generation, [o], now), ObserveR(Accepted),
                       Single(generation, map[o.ip.u := Entry(o.decision, o.expiresAt)]))
    ensures Took(m)
  {
    SingleObserves(generation, o, now);
  }

  lemma SingleAnswers(m: Move, ip: U32)
    requires var c := Single("g2", map[ip := Entry(Direct, 100)]); m == Move(c, Lookup(0, V4(ip), "g2", 3), LookupR(Direct), c)
    ensures Took(m)
  {
  }

  // ---- every answer is justified -------------------------------------------

  /** Step i accepted, for this session and under this generation, an observation
      of this decision for this address with this deadline. */
  ghost predicate Evidence(run: seq<Move>, i: nat, id: nat, generation: string, o: Observation) {
    && i < |run|
    && run[i].event.Observe? && run[i].event.id == id && run[i].event.generation == generation
    && run[i].reply == ObserveR(Accepted)
    && o in run[i].event.batch
  }

  /** No change of generation and no Invalidate of the session strictly between. */
  ghost predicate Undisturbed(run: seq<Move>, i: nat, j: nat, id: nat)
    requires j <= |run|
  {
    forall k :: i < k < j ==> !ChangesGeneration(run[k]) && run[k].event != Invalidate(id)
  }

  function StateAt(run: seq<Move>, m: nat): Cache
    requires run != [] && m <= |run|
  {
    if m == 0 then run[0].pre else run[m - 1].post
  }

  /** The observation behind an entry. */
  function Behind(ip: U32, e: Entry): Observation {
    Observation(V4(ip), e.decision, e.expiresAt)
  }

  /** The entry was already there. */
  ghost predicate Inherited(c: Cache, id: nat, ip: U32, e: Entry) {
    c.HasHandle(id) && ip in c.View(id).entries && c.View(id).entries[ip] == e
  }

  /** The entry is an observation this step accepted. */
  ghost predicate Learned(m: Move, id: nat, ip: U32, e: Entry) {
    && m.event.Observe? && m.event.id == id && m.event.generation == m.pre.generation
    && m.reply == ObserveR(Accepted)
    && Behind(ip, e) in m.event.batch
  }

  predicate Observed(batch: seq<Observation>, ip: U32, d: Decision) {
    exists o :: o in batch && o.ip == V4(ip) && o.decision == d
  }

  predicate StillHas(v: View, now: Time, ip: U32, d: Decision) {
    ip in v.entries && v.entries[ip].decision == d && now < v.entries[ip].expiresAt
  }

  /** A Proxy for the address that is alive. */
  predicate LiveProxy(batch: seq<Observation>, now: Time, ip: U32) {
    exists o :: o in batch && o.ip == V4(ip) && o.decision == Proxy && o.expiresAt > now
  }

  ghost predicate LatestOf(batch: seq<Observation>, ip: U32, d: Decision, t: Time) {
    forall o :: o in batch && o.ip == V4(ip) && o.decision == d ==> o.expiresAt <= t
  }

  lemma FoldMeaning(batch: seq<Observation>, ip: U32, now: Time)
    requires Decided(batch)
    ensures ip in Fold(batch) <==> Observed(batch, ip, Proxy) || Observed(batch, ip, Direct)
    ensures ip in Fold(batch) ==>
              var o := Fold(batch)[ip];
              && (o.decision == if Observed(batch, ip, Proxy) then Proxy else Direct)
              && LatestOf(batch, ip, o.decision, o.expiresAt)
              && (LiveProxy(batch, now, ip) <==> o.decision == Proxy && o.expiresAt > now)
  {
    FoldPicksWinners(batch);
    if ip in Fold(batch) { assert Wins(batch, Fold(batch)[ip]); }
  }

  /** What a batch makes of one address, in terms of its observations: Proxy as long as an
      old or a new Proxy is alive, with the latest of their deadlines; Direct only if the
      batch holds no Proxy at all, not even an expired one, and no old Proxy is alive, with
      the latest deadline of the Directs; and otherwise nothing. */
  lemma MergeMeaning(v: View, batch: seq<Observation>, now: nat, maxTTL: nat, ip: U32)
    requires DecidedEntries(v.entries) && ValidBatch(batch, now, maxTTL)
    ensures var m := Merged(v, Fold(batch), now);
            && (ip in m && m[ip].decision == Proxy <==> StillHas(v, now, ip, Proxy) || LiveProxy(batch, now, ip))
            && (ip in m && m[ip].decision == Direct
                <==> !Observed(batch, ip, Proxy) && !StillHas(v, now, ip, Proxy)
                     && (StillHas(v, now, ip, Direct) || Observed(batch, ip, Direct)))
            && (ip in m ==> m[ip].decision != Unknown)
            && (ip in m ==> LatestOf(batch, ip, m[ip].decision, m[ip].expiresAt))
            && (ip in m && StillHas(v, now, ip, m[ip].decision) ==> v.entries[ip].expiresAt <= m[ip].expiresAt)
  {
    FoldMeaning(batch, ip, now);
    FoldIsDecided(batch);
    MergedAddress(v, Fold(batch), now, ip);
  }

  lemma FoldIsDecided(batch: seq<Observation>)
    requires Decided(batch)
    ensures forall k :: k in Fold(batch) ==> Fold(batch)[k].decision != Unknown
  {
    FoldPicksWinners(batch);
  }

  /** The same of a folded batch. */
  lemma MergedAddress(v: View, folded: Folded, now: nat, ip: U32)
    requires DecidedEntries(v.entries) && forall k :: k in folded ==> folded[k].decision != Unknown
    ensures var m := Merged(v, folded, now);
            var newProxy, newDirect := ip in folded && folded[ip].decision == Proxy, ip in folded && folded[ip].decision == Direct;
            && (ip in m && m[ip].decision == Proxy <==> StillHas(v, now, ip, Proxy) || (newProxy && folded[ip].expiresAt > now))
            && (ip in m && m[ip].decision == Direct
                <==> !newProxy && !StillHas(v, now, ip, Proxy) && (StillHas(v, now, ip, Direct) || newDirect))
            && (ip in m ==> m[ip].decision != Unknown)
            && (ip in m && ip in folded && folded[ip].decision == m[ip].decision ==> folded[ip].expiresAt <= m[ip].expiresAt)
            && (ip in m && StillHas(v, now, ip, m[ip].decision) ==> v.entries[ip].expiresAt <= m[ip].expiresAt)
  {
  }

  /** The step took a Proxy for the address, whatever its deadline. */
  ghost predicate TookProxy(m: Move, id: nat, ip: U32) {
    && m.event.Observe? && m.event.id == id
    && m.reply in {ObserveR(Accepted), ObserveR(CapacityExceeded)}
    && Observed(m.event.batch, ip, Proxy)
  }

  /** A Direct entry is not left by a step that took a Proxy for its address. */
  lemma DirectMeansNoProxy(m: Move, id: nat, ip: U32)
    requires Inv(m.pre) && Took(m) && m.post.HasHandle(id) && ip in m.post.View(id).entries
    requires m.post.View(id).entries[ip].decision == Direct
    ensures !TookProxy(m, id, ip)
  {
    if m.event.Observe? && m.event.id == id && m.event.batch != [] {
      assert HandleInv(m.pre, id);
      if m.reply == ObserveR(Accepted) {
        MergeMeaning(m.pre.View(id), m.event.batch, m.event.now, m.pre.cfg.maxTTL, ip);
      }
    }
  }

  /** An entry of the merge is an old entry of the view or an observation of the batch. */
  lemma MergeOrigin(v: View, batch: seq<Observation>, now: nat, maxTTL: nat, ip: U32)
    requires DecidedEntries(v.entries) && ValidBatch(batch, now, maxTTL) && ip in Merged(v, Fold(batch), now)
    ensures var e := Merged(v, Fold(batch), now)[ip];
            (ip in v.entries && v.entries[ip] == e) || Behind(ip, e) in batch
  {
    FoldPicksWinners(batch);
    DirectIsAlive(batch, now, maxTTL);
    MergeSources(v.entries, Fold(batch), now, ip);
    if ip in Fold(batch) { assert Wins(batch, Fold(batch)[ip]); }
  }

  lemma ObserveOrigin(m: Move, ip: U32)
    requires Inv(m.pre) && Took(m) && m.event.Observe? && m.post != m.pre
    requires ip in m.post.View(m.event.id).entries
    ensures var e := m.post.View(m.event.id).entries[ip];
            Inherited(m.pre, m.event.id, ip, e) || Learned(m, m.event.id, ip, e)
  {
    var c, id, batch, now := m.pre, m.event.id, m.event.batch, m.event.now;
    if !Quarantined(c.View(id), now) {
      var merged := Merged(c.View(id), Fold(batch), now);
      assert HandleInv(c, id);
      var kept :| Admitted(c, id, merged, kept, m.post);
      MergeOrigin(c.View(id), batch, now, c.cfg.maxTTL, ip);
    }
  }

  lemma OtherOrigin(m: Move, id: nat, ip: U32)
    requires Inv(m.pre) && Took(m) && m.post.HasHandle(id) && ip in m.post.View(id).entries
    requires !(m.event.Observe? && m.event.id == id && m.post != m.pre)
    ensures !ChangesGeneration(m) && m.event != Invalidate(id)
    ensures Inherited(m.pre, id, ip, m.post.View(id).entries[ip])
  {
    match m.event
    case SetGeneration(_) => RetiredIsEmpty(m.pre, id);
    case Invalidate(_) => RetiredIsEmpty(m.pre, id);
    case _ =>
  }

  lemma RetiredIsEmpty(c: Cache, id: nat)
    requires Inv(c) && c.HasHandle(id)
    ensures c.View(id).retired ==> c.View(id).entries == map[]
  {
    assert HandleInv(c, id);
  }

  /** One step back: an entry of a view was there before the step with the same
      decision and deadline, or it is an observation the step accepted. */
  lemma EntryOrigin(m: Move, id: nat, ip: U32)
    requires Inv(m.pre) && Took(m) && m.post.HasHandle(id) && ip in m.post.View(id).entries
    ensures !ChangesGeneration(m) && m.event != Invalidate(id) && m.post.generation == m.pre.generation
    ensures var e := m.post.View(id).entries[ip];
            Inherited(m.pre, id, ip, e) || Learned(m, id, ip, e)
  {
    if m.event.Observe? && m.event.id == id && m.post != m.pre {
      ObserveOrigin(m, ip);
    } else {
      OtherOrigin(m, id, ip);
    }
  }

  lemma DirectIsAlive(batch: seq<Observation>, now: nat, maxTTL: nat)
    requires ValidBatch(batch, now, maxTTL)
    ensures forall k :: k in Fold(batch) && Fold(batch)[k].decision == Direct ==> Fold(batch)[k].expiresAt > now
  {
    FoldPicksWinners(batch);
    forall k | k in Fold(batch) && Fold(batch)[k].decision == Direct
      ensures Fold(batch)[k].expiresAt > now
    {
      assert Wins(batch, Fold(batch)[k]);
    }
  }

  /** No step from i on took a Proxy for the address, not even an expired one. */
  ghost predicate NoProxySince(run: seq<Move>, i: nat, m: nat, id: nat, ip: U32)
    requires m <= |run|
  {
    forall k :: i <= k < m ==> !TookProxy(run[k], id, ip)
  }

  /** The evidence for an entry of the state after m moves. */
  ghost predicate Justifies(run: seq<Move>, i: nat, m: nat, id: nat, generation: string, o: Observation)
    requires m <= |run|
  {
    && i < m && Evidence(run, i, id, generation, o) && Undisturbed(run, i, m, id)
    && (o.decision == Direct && o.ip.V4? ==> NoProxySince(run, i, m, id, o.ip.u))
  }

  lemma {:induction false} EntryIsJustified(run: seq<Move>, m: nat, id: nat, ip: U32, e: Entry) returns (i: nat)
    requires IsRun(run) && run != [] && m <= |run|
    requires Inherited(StateAt(run, m), id, ip, e)
    ensures Justifies(run, i, m, id, StateAt(run, m).generation, Behind(ip, e))
  {
    var last := run[m - 1];
    ReachableInv(run, m - 1);
    assert Took(last);
    EntryOrigin(last, id, ip);
    if e.decision == Direct { DirectMeansNoProxy(last, id, ip); }
    assert StateAt(run, m - 1) == last.pre;
    if Learned(last, id, ip, e) {
      i := m - 1;
    } else {
      i := EntryIsJustified(run, m - 1, id, ip, e);
    }
  }

  /** Every answer is justified: Direct or Proxy is returned only if this very session
      handle accepted an observation of that decision for that address under the
      generation passed in, still before its deadline, with neither a change of
      generation nor an Invalidate since; and Direct only if neither that batch nor any
      later one that was taken holds a Proxy for the address, whatever its deadline. */
  lemma AnswersAreJustified(run: seq<Move>, j: nat) returns (i: nat, o: Observation)
    requires IsRun(run) && j < |run| && run[j].event.Lookup?
    requires run[j].reply != LookupR(Unknown)
    ensures i < j && Evidence(run, i, run[j].event.id, run[j].event.generation, o)
    ensures o.ip == run[j].event.ip && LookupR(o.decision) == run[j].reply
    ensures o.expiresAt > run[j].event.now
    ensures Undisturbed(run, i, j, run[j].event.id)
    ensures run[j].event.ip.V4?
    ensures run[j].reply == LookupR(Direct) ==> NoProxySince(run, i, j, run[j].event.id, run[j].event.ip.u)
  {
    var id, ip := run[j].event.id, run[j].event.ip;
    ReachableInv(run, j);
    assert Took(run[j]);
    assert HandleInv(run[j].pre, id);
    assert StateAt(run, j) == run[j].pre;
    var e := run[j].pre.View(id).entries[ip.u];
    i := EntryIsJustified(run, j, id, ip.u, e);
    o := Behind(ip.u, e);
  }

  /** Once invalidated, a handle answers Unknown for ever, even when its scope is
      opened again: reopening gives another handle. */
  lemma InvalidatedStaysSilent(run: seq<Move>, i: nat, j: nat)
    requires IsRun(run) && i < j < |run| && run[i].event.Invalidate?
    ensures run[j].event.Lookup? && run[j].event.id == run[i].event.id ==> run[j].reply == LookupR(Unknown)
    ensures run[j].reply.OpenR? && run[j].reply.open.Opened? ==> run[j].reply.open.id != run[i].event.id
  {
    RetiredFromThen(run, i, j);
    ReachableInv(run, j);
    assert Took(run[j]);
    assert HandleInv(run[j].pre, run[i].event.id);
  }

  lemma {:induction false} RetiredFromThen(run: seq<Move>, i: nat, j: nat)
    requires IsRun(run) && i < j < |run| && run[i].event.Invalidate?
    ensures run[j].pre.HasHandle(run[i].event.id) && run[j].pre.View(run[i].event.id).retired
  {
    if i + 1 < j {
      RetiredFromThen(run, i, j - 1);
      RetiredAt(run, j - 1, run[i].event.id);
    } else {
      assert Took(run[i]);
    }
  }

  lemma RetiredAt(run: seq<Move>, k: nat, id: nat)
    requires IsRun(run) && k < |run| && run[k].pre.HasHandle(id) && run[k].pre.View(id).retired
    ensures run[k].post.HasHandle(id) && run[k].post.View(id).retired
  {
    RetiredStays(run[k], id);
  }

  lemma RetiredStays(m: Move, id: nat)
    requires Took(m) && m.pre.HasHandle(id) && m.pre.View(id).retired
    ensures m.post.HasHandle(id) && m.post.View(id).retired
  {
  }

  // ---- sweep, order, quarantine --------------------------------------------

  /** A sweep at t changes no answer at any time from t on, for any session. */
  lemma SweepUnobservable(c: Cache, t: nat, id: nat, ip: Addr, generation: string, now: nat)
    requires Inv(c) && c.HasHandle(id) && now >= t
    ensures SweepStep(c, t).HasHandle(id)
    ensures LookupView(SweepStep(c, t).View(id), ip, generation, now) == LookupView(c.View(id), ip, generation, now)
  {
    assert HandleInv(c, id);
    SweepViewUnobservable(c.View(id), t, ip, generation, now);
  }

  /** The effect of a batch depends only on which observations it holds. */
  lemma ObserveIgnoresOrder(c: Cache, id: nat, generation: string, a: seq<Observation>, b: seq<Observation>,
                            now: nat, c': Cache, r: Outcome)
    requires c.HasHandle(id)
    requires forall o :: o in a <==> o in b
    ensures ObserveStep(c, id, generation, a, now, c', r) <==> ObserveStep(c, id, generation, b, now, c', r)
  {
    if a != [] { assert a[0] in b; }
    if b != [] { assert b[0] in a; }
    if ValidBatch(a, now, c.cfg.maxTTL) {
      FoldIgnoresOrder(a, b);
    }
  }

  /** A quarantine starts only for Proxies the caps cannot hold: a batch without Proxy
      never starts one, and the deadline lies after now and covers all that is dropped. */
  lemma QuarantineIsExact(c: Cache, id: nat, generation: string, batch: seq<Observation>, now: nat,
                          c': Cache, r: Outcome)
    requires Inv(c) && Reaches(c, id, generation, batch, now)
    requires ObserveStep(c, id, generation, batch, now, c', r)
    ensures r == CapacityExceeded <==> ProxiesOverflow(c, c.View(id), Merged(c.View(id), Fold(batch), now))
    ensures r == CapacityExceeded ==> exists o :: o in batch && o.decision == Proxy && o.expiresAt > now
    ensures r == CapacityExceeded ==>
      var v' := c'.View(id);
      && v'.entries == map[] && v'.unknownUntil > now && Quarantined(v', now)
      && (forall k :: k in c.View(id).entries ==> v'.unknownUntil >= c.View(id).entries[k].expiresAt)
      && (forall k :: k in Fold(batch) ==> v'.unknownUntil >= Fold(batch)[k].expiresAt)
      && (forall o :: o in batch && o.decision == Proxy ==> v'.unknownUntil >= o.expiresAt)
    ensures r != CapacityExceeded ==> r == Accepted && !Quarantined(c'.View(id), now) && c'.View(id).unknownUntil == 0
  {
    var v, folded := c.View(id), Fold(batch);
    var merged := Merged(v, folded, now);
    assert HandleInv(c, id);
    FoldPicksWinners(batch);
    if ProxiesOverflow(c, v, merged) {
      var k := NewProxy(c, id, batch, now);
      assert Wins(batch, folded[k]);
      DeadlineCovers(v, batch);
      assert folded[k].expiresAt in Deadlines(v.entries) + FoldedDeadlines(folded);
    }
  }

  /** If the merged Proxies overflow, one of them is new and comes from the batch. */
  lemma NewProxy(c: Cache, id: nat, batch: seq<Observation>, now: nat) returns (k: U32)
    requires Inv(c) && c.HasHandle(id) && ValidBatch(batch, now, c.cfg.maxTTL)
    requires ProxiesOverflow(c, c.View(id), Merged(c.View(id), Fold(batch), now))
    ensures k in Fold(batch) && Fold(batch)[k].decision == Proxy && Fold(batch)[k].expiresAt > now
  {
    var v, folded := c.View(id), Fold(batch);
    var proxies := KeysOf(Merged(v, folded, now), Proxy);
    assert HandleInv(c, id);
    assert |v.entries.Keys| == |v.entries|;
    if proxies <= v.entries.Keys {
      SubsetSize(proxies, v.entries.Keys);
    }
    NotSubset(proxies, v.entries.Keys);
    k := Pick(proxies - v.entries.Keys);
    FoldPicksWinners(batch);
  }

  lemma DeadlineCovers(v: View, batch: seq<Observation>)
    requires Decided(batch)
    ensures var t := Latest(v.unknownUntil, Deadlines(v.entries) + FoldedDeadlines(Fold(batch)));
            && (forall k :: k in v.entries ==> t >= v.entries[k].expiresAt)
            && (forall k :: k in Fold(batch) ==> t >= Fold(batch)[k].expiresAt)
            && (forall o :: o in batch && o.decision == Proxy ==> t >= o.expiresAt)
  {
    var folded := Fold(batch);
    var all := Deadlines(v.entries) + FoldedDeadlines(folded);
    FoldPicksWinners(batch);
    forall k | k in v.entries ensures Latest(v.unknownUntil, all) >= v.entries[k].expiresAt {
      assert v.entries[k].expiresAt in all;
    }
    forall k | k in folded ensures Latest(v.unknownUntil, all) >= folded[k].expiresAt {
      assert folded[k].expiresAt in all;
    }
    forall o | o in batch && o.decision == Proxy ensures Latest(v.unknownUntil, all) >= o.expiresAt {
      assert Wins(batch, folded[o.ip.u]);
    }
  }
}
