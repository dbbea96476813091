/** The route cache as a state machine: what each operation may do to the whole
    cache, the invariant of every reachable state, and what holds over whole runs.
    RouteCache's methods (route_cache.dfy) are proved against these steps. */
module RouteMachine {
  import opened Netip
  import opened Sets
  import opened Instants
  import opened RouteView

  datatype Config = Config(maxSessions: nat, maxPerSession: nat, maxTotal: nat, maxTTL: nat)

  datatype Scope = Scope(sessionId: string, ownershipEpoch: nat)

  datatype Session = Session(scope: Scope, view: View)

  /** `handles` lists every session ever opened, in order, so that a retired handle
      keeps its identity; `sessions` is the map of the open ones. */
  datatype Cache = Cache(
    cfg: Config,
    generation: string,
    handles: seq<Session>,
    sessions: map<Scope, nat>,
    total: int)
  {
    ghost predicate HasHandle(id: nat) { id < |handles| }

    function View(id: nat): View
      requires id < |handles|
    {
      handles[id].view
    }

    function WithView(id: nat, v: View, newTotal: int): Cache
      requires id < |handles|
    {
      this.(handles := handles[id := handles[id].(view := v)], total := newTotal)
    }
  }

  /** Entries held by a list of sessions. */
  function Count(handles: seq<Session>): nat {
    if handles == [] then 0
    else Count(handles[..|handles| - 1]) + |handles[|handles| - 1].view.entries|
  }

  lemma {:induction false} CountUpdate(handles: seq<Session>, id: nat, s: Session)
    requires id < |handles|
    ensures Count(handles[id := s]) == Count(handles) - |handles[id].view.entries| + |s.view.entries|
  {
    var n := |handles| - 1;
    if id < n {
      assert handles[id := s][..n] == handles[..n][id := s];
      CountUpdate(handles[..n], id, s);
    } else {
      assert handles[id := s][..n] == handles[..n];
    }
  }

  lemma CountAppend(handles: seq<Session>, s: Session)
    ensures Count(handles + [s]) == Count(handles) + |s.view.entries|
  {
    assert (handles + [s])[..|handles|] == handles;
  }

  lemma {:induction false} CountAtLeast(handles: seq<Session>, id: nat)
    requires id < |handles|
    ensures |handles[id].view.entries| <= Count(handles)
  {
    if id < |handles| - 1 { CountAtLeast(handles[..|handles| - 1], id); }
  }

  lemma {:induction false} CountEmpty(handles: seq<Session>)
    requires forall i :: 0 <= i < |handles| ==> handles[i].view.entries == map[]
    ensures Count(handles) == 0
  {
    if handles != [] { CountEmpty(handles[..|handles| - 1]); }
  }

  // ---- the invariant -------------------------------------------------------

  ghost predicate ViewInv(v: View, cfg: Config) {
    && DecidedEntries(v.entries)
    && |v.entries| <= cfg.maxPerSession
    && (v.retired || v.unknownUntil != 0 ==> v.entries == map[])
  }

  ghost predicate IsOpen(c: Cache, id: nat) {
    && id < |c.handles|
    && c.handles[id].scope in c.sessions
    && c.sessions[c.handles[id].scope] == id
  }

  /** A handle is open exactly when its view is not retired, and an open one carries
      the generation of the cache. */
  ghost predicate HandleInv(c: Cache, id: nat)
    requires id < |c.handles|
  {
    && ViewInv(c.View(id), c.cfg)
    && (IsOpen(c, id) <==> !c.View(id).retired)
    && (!c.View(id).retired ==> c.View(id).generation == c.generation)
  }

  ghost predicate Inv(c: Cache) {
    && c.cfg.maxSessions > 0 && c.cfg.maxPerSession > 0 && c.cfg.maxTotal > 0 && c.cfg.maxTTL > 0
    && |c.sessions| <= c.cfg.maxSessions
    && c.total == Count(c.handles) <= c.cfg.maxTotal
    && (forall scope :: scope in c.sessions ==>
          c.sessions[scope] < |c.handles| && c.handles[c.sessions[scope]].scope == scope)
    && forall id :: 0 <= id < |c.handles| ==> HandleInv(c, id)
  }

  // ---- the steps -----------------------------------------------------------

  datatype Outcome =
    | Accepted
    | InvalidGeneration
    | InvalidObservation
    | SessionRetired
    | GenerationMismatch
    | CapacityExceeded

  datatype OpenReply = Opened(id: nat) | InvalidScope | MaxSessionsReached

  function FreshView(generation: string): View {
    RouteView.View(map[], generation, 0, false)
  }

  ghost predicate OpenStep(c: Cache, scope: Scope, c': Cache, r: OpenReply) {
    if scope.sessionId == "" then c' == c && r == InvalidScope
    else if scope in c.sessions then c' == c && r == Opened(c.sessions[scope])
    else if |c.sessions| >= c.cfg.maxSessions then c' == c && r == MaxSessionsReached
    else
      && r == Opened(|c.handles|)
      && c' == c.(handles := c.handles + [Session(scope, FreshView(c.generation))],
                  sessions := c.sessions[scope := |c.handles|])
  }

  /** A changed generation empties every live view; a quarantine deadline stays. */
  function Regenerate(s: Session, generation: string): Session {
    if s.view.retired then s
    else s.(view := s.view.(entries := map[], generation := generation))
  }

  function SetGenerationStep(c: Cache, generation: string): Cache {
    if generation == c.generation then c
    else c.(generation := generation,
            handles := seq(|c.handles|, i requires 0 <= i < |c.handles| => Regenerate(c.handles[i], generation)),
            total := 0)
  }

  const RETIRED_VIEW := RouteView.View(map[], "", 0, true)

  function InvalidateStep(c: Cache, id: nat): Cache
    requires id < |c.handles|
  {
    if c.View(id).retired then c
    else c.WithView(id, RETIRED_VIEW, c.total - |c.View(id).entries|)
          .(sessions := c.sessions - {c.handles[id].scope})
  }

  function SweptSession(s: Session, now: nat): Session {
    if s.view.retired then s else s.(view := SweepView(s.view, now))
  }

  function SweptHandles(handles: seq<Session>, now: nat): seq<Session> {
    seq(|handles|, i requires 0 <= i < |handles| => SweptSession(handles[i], now))
  }

  function SweepStep(c: Cache, now: nat): Cache {
    c.(handles := SweptHandles(c.handles, now), total := Count(SweptHandles(c.handles, now)))
  }

  /** The merged Proxy entries alone do not fit. */
  predicate ProxiesOverflow(c: Cache, v: View, merged: Entries) {
    || |KeysOf(merged, Proxy)| > c.cfg.maxPerSession
    || c.total - |v.entries| + |KeysOf(merged, Proxy)| > c.cfg.maxTotal
  }

  /** How many entries are too many, against the tighter of the two caps. */
  function Excess(c: Cache, v: View, merged: Entries): int {
    var session := |merged| - c.cfg.maxPerSession;
    var total := c.total + |merged| - |v.entries| - c.cfg.maxTotal;
    if total > session then total else session
  }

  /** Some choice of Direct entries, as many as do not fit, is dropped. */
  ghost predicate Evicted(merged: Entries, kept: Entries, excess: int) {
    && kept.Keys <= merged.Keys
    && (forall k :: k in kept ==> kept[k] == merged[k])
    && (forall k :: k in merged && k !in kept ==> merged[k].decision == Direct)
    && |merged| - |kept| == if excess > 0 then excess else 0
  }

  ghost function QuarantineView(c: Cache, v: View, folded: Folded): View {
    RouteView.View(map[], c.generation,
      Latest(v.unknownUntil, Deadlines(v.entries) + FoldedDeadlines(folded)), false)
  }

  ghost function ExtendedView(c: Cache, v: View, folded: Folded): View {
    var until := Latest(v.unknownUntil, ProxyDeadlines(folded));
    if until == v.unknownUntil then v else RouteView.View(map[], c.generation, until, false)
  }

  function Merged(v: View, folded: Folded, now: Time): Entries {
    Merge(Prune(v.entries, now), folded, now)
  }

  ghost function QuarantineStep(c: Cache, id: nat, folded: Folded): Cache
    requires id < |c.handles|
  {
    c.WithView(id, QuarantineView(c, c.View(id), folded), c.total - |c.View(id).entries|)
  }

  ghost function ExtendStep(c: Cache, id: nat, folded: Folded): Cache
    requires id < |c.handles|
  {
    c.WithView(id, ExtendedView(c, c.View(id), folded), c.total)
  }

  /** Quarantine when the Proxies among the merged entries do not fit, else publish
      what is left after an eviction. */
  ghost predicate PlaceStep(c: Cache, id: nat, merged: Entries, folded: Folded, c': Cache, r: Outcome)
    requires id < |c.handles|
  {
    if ProxiesOverflow(c, c.View(id), merged) then
      r == CapacityExceeded && c' == QuarantineStep(c, id, folded)
    else
      r == Accepted && exists kept :: Admitted(c, id, merged, kept, c')
  }

  /** What Observe does under the lock. */
  ghost predicate LockedStep(c: Cache, id: nat, generation: string, folded: Folded, now: nat, c': Cache, r: Outcome)
    requires id < |c.handles|
  {
    var v := c.View(id);
    if v.retired then c' == c && r == SessionRetired
    else if generation != c.generation || c.generation != v.generation then c' == c && r == GenerationMismatch
    else if Quarantined(v, now) then c' == ExtendStep(c, id, folded) && r == CapacityExceeded
    else PlaceStep(c, id, Merged(v, folded, now), folded, c', r)
  }

  ghost predicate ObserveStep(c: Cache, id: nat, generation: string, batch: seq<Observation>, now: nat,
                              c': Cache, r: Outcome)
    requires id < |c.handles|
  {
    if generation == "" then c' == c && r == InvalidGeneration
    else if batch == [] then c' == c && r == Accepted
    else if !ValidBatch(batch, now, c.cfg.maxTTL) then c' == c && r == InvalidObservation
    else LockedStep(c, id, generation, Fold(batch), now, c', r)
  }

  ghost predicate Admitted(c: Cache, id: nat, merged: Entries, kept: Entries, c': Cache)
    requires id < |c.handles|
  {
    && Evicted(merged, kept, Excess(c, c.View(id), merged))
    && c' == c.WithView(id, RouteView.View(kept, c.generation, 0, false),
                        c.total + |kept| - |c.View(id).entries|)
  }

  // ---- every step keeps the invariant --------------------------------------

  /** Replacing one live view by another live one. */
  lemma WithViewInv(c: Cache, id: nat, v: View, newTotal: int)
    requires Inv(c) && id < |c.handles|
    requires !c.View(id).retired && !v.retired && v.generation == c.generation
    requires ViewInv(v, c.cfg)
    requires newTotal == c.total - |c.View(id).entries| + |v.entries| <= c.cfg.maxTotal
    ensures Inv(c.WithView(id, v, newTotal))
  {
    var c' := c.WithView(id, v, newTotal);
    CountUpdate(c.handles, id, c.handles[id].(view := v));
    forall i | 0 <= i < |c'.handles| ensures HandleInv(c', i) {
      assert HandleInv(c, i);
    }
  }

  /** What is left after eviction fits both caps. */
  lemma EvictedFits(c: Cache, v: View, merged: Entries, kept: Entries)
    requires Evicted(merged, kept, Excess(c, v, merged))
    ensures |kept| <= c.cfg.maxPerSession
    ensures c.total - |v.entries| + |kept| <= c.cfg.maxTotal
  {
  }

  lemma AdmittedInv(c: Cache, id: nat, batch: seq<Observation>, now: nat, kept: Entries, c': Cache)
    requires Inv(c) && id < |c.handles| && !c.View(id).retired && Decided(batch)
    requires Admitted(c, id, Merged(c.View(id), Fold(batch), now), kept, c')
    ensures Inv(c')
  {
    assert HandleInv(c, id);
    FoldPicksWinners(batch);
    MergeIsDecided(c.View(id).entries, Fold(batch), now);
    EvictedFits(c, c.View(id), Merged(c.View(id), Fold(batch), now), kept);
    WithViewInv(c, id, RouteView.View(kept, c.generation, 0, false), c.total + |kept| - |c.View(id).entries|);
  }

  lemma ObserveInv(c: Cache, id: nat, generation: string, batch: seq<Observation>, now: nat, c': Cache, r: Outcome)
    requires Inv(c) && id < |c.handles|
    requires ObserveStep(c, id, generation, batch, now, c', r)
    ensures Inv(c')
  {
    if c' != c {
      var v, folded := c.View(id), Fold(batch);
      assert HandleInv(c, id);
      CountAtLeast(c.handles, id);
      if Quarantined(v, now) {
        WithViewInv(c, id, ExtendedView(c, v, folded), c.total);
      } else {
        var merged := Merged(v, folded, now);
        if ProxiesOverflow(c, v, merged) {
          WithViewInv(c, id, QuarantineView(c, v, folded), c.total - |v.entries|);
        } else {
          var kept :| Admitted(c, id, merged, kept, c');
          AdmittedInv(c, id, batch, now, kept, c');
        }
      }
    }
  }

  lemma OpenInv(c: Cache, scope: Scope, c': Cache, r: OpenReply)
    requires Inv(c) && OpenStep(c, scope, c', r)
    ensures Inv(c')
    ensures r.Opened? ==> IsOpen(c', r.id) && c'.handles[r.id].scope == scope
    ensures r.Opened? && scope !in c.sessions ==> r.id == |c.handles|
  {
    if c' != c {
      CountAppend(c.handles, Session(scope, FreshView(c.generation)));
      assert |c'.sessions.Keys| == |c.sessions.Keys + {scope}|;
      forall i | 0 <= i < |c'.handles| ensures HandleInv(c', i) { OpenedHandle(c, scope, c', i); }
    }
  }

  lemma OpenedHandle(c: Cache, scope: Scope, c': Cache, i: nat)
    requires Inv(c) && scope !in c.sessions && i < |c'.handles|
    requires c' == c.(handles := c.handles + [Session(scope, FreshView(c.generation))],
                      sessions := c.sessions[scope := |c.handles|])
    ensures HandleInv(c', i)
  {
    if i < |c.handles| { assert HandleInv(c, i); }
  }

  lemma SetGenerationInv(c: Cache, generation: string)
    requires Inv(c)
    ensures Inv(SetGenerationStep(c, generation))
  {
    var c' := SetGenerationStep(c, generation);
    if generation != c.generation {
      forall i | 0 <= i < |c'.handles| ensures HandleInv(c', i) && c'.handles[i].view.entries == map[] {
        assert HandleInv(c, i);
      }
      CountEmpty(c'.handles);
    }
  }

  lemma InvalidateInv(c: Cache, id: nat)
    requires Inv(c) && id < |c.handles|
    ensures Inv(InvalidateStep(c, id))
  {
    var c' := InvalidateStep(c, id);
    assert HandleInv(c, id);
    if !c.View(id).retired {
      InvalidateCounts(c, id);
      forall i | 0 <= i < |c'.handles| ensures HandleInv(c', i) {
        InvalidateHandle(c, id, i);
      }
    }
  }

  lemma InvalidateCounts(c: Cache, id: nat)
    requires Inv(c) && id < |c.handles| && !c.View(id).retired
    ensures var c' := InvalidateStep(c, id);
            c'.total == Count(c'.handles) <= c.total && |c'.sessions| <= |c.sessions|
  {
    var c' := InvalidateStep(c, id);
    CountUpdate(c.handles, id, c.handles[id].(view := RETIRED_VIEW));
    SubsetSize(c'.sessions.Keys, c.sessions.Keys);
    assert |c'.sessions.Keys| == |c'.sessions| && |c.sessions.Keys| == |c.sessions|;
  }

  lemma InvalidateHandle(c: Cache, id: nat, i: nat)
    requires Inv(c) && id < |c.handles| && !c.View(id).retired && i < |c.handles|
    ensures HandleInv(InvalidateStep(c, id), i)
  {
    assert HandleInv(c, id) && HandleInv(c, i);
  }

  lemma {:induction false} SweptCount(handles: seq<Session>, now: nat)
    ensures Count(SweptHandles(handles, now)) <= Count(handles)
  {
    if handles != [] {
      var n := |handles| - 1;
      SweptCount(handles[..n], now);
      assert SweptHandles(handles, now)[..n] == SweptHandles(handles[..n], now);
      PruneSize(handles[n].view.entries, now);
    }
  }

  lemma PruneSize(entries: Entries, now: Time)
    ensures |Prune(entries, now)| <= |entries|
  {
    SubsetSize(Prune(entries, now).Keys, entries.Keys);
    assert |Prune(entries, now).Keys| == |Prune(entries, now)| && |entries.Keys| == |entries|;
  }

  lemma SweepInv(c: Cache, now: nat)
    requires Inv(c)
    ensures Inv(SweepStep(c, now))
  {
    var c' := SweepStep(c, now);
    SweptCount(c.handles, now);
    forall id | 0 <= id < |c'.handles| ensures HandleInv(c', id) {
      assert HandleInv(c, id);
      PruneSize(c.View(id).entries, now);
    }
  }
}
