/** internal/policy/route_cache.go: the route cache and its session handles, proved
    against the steps of RouteMachine. A Go map is iterated in an arbitrary order,
    here by taking any key not yet visited. */
module RouteCaches {
  import opened Options
  import opened Netip
  import opened Sets
  import opened Instants
  import opened RouteView
  import opened RouteMachine
  import RouteRuns
  import Ipv4

  const SECOND: nat := 1_000_000_000

  datatype RawConfig = RawConfig(maxSessions: int, maxPerSession: int, maxTotal: int, maxTTL: int)

  function OrDefault(x: int, d: nat): nat { if x <= 0 then d else x }

  function Defaulted(raw: RawConfig): Config {
    Config(OrDefault(raw.maxSessions, 128), OrDefault(raw.maxPerSession, 1024),
           OrDefault(raw.maxTotal, 65536), OrDefault(raw.maxTTL, 3600 * SECOND))
  }

  predicate WithinHardLimits(cfg: Config) {
    && cfg.maxSessions <= 65536 && cfg.maxPerSession <= 65536
    && cfg.maxTotal <= 1048576 && cfg.maxTTL <= 24 * 3600 * SECOND
  }

  /** ValidateFetchIP: special-use addresses and the refused networks, the latter by
      binary search in their index. */
  method ValidateFetchIP(addr: Addr, denied: Ipv4.Index) returns (ok: bool)
    requires Ipv4.Indexes(denied, DENIED)
    ensures ok <==> addr.Unmap().V4? && FetchAllowed(addr.Unmap().u)
  {
    var a := addr.Unmap();
    if !a.V4? || SpecialUse(a.u) {
      return false;
    }
    var refused := Ipv4.Match(denied, a, DENIED);
    ok := !refused;
  }

  method ValidateBatch(batch: seq<Observation>, now: nat, maxTTL: nat, denied: Ipv4.Index) returns (ok: bool)
    requires Ipv4.Indexes(denied, DENIED)
    ensures ok <==> ValidBatch(batch, now, maxTTL)
  {
    var maxDeadline := now + maxTTL;
    for i := 0 to |batch|
      invariant ValidBatch(batch[..i], now, maxTTL)
    {
      var o := batch[i];
      assert o in batch;
      if o.decision != Direct && o.decision != Proxy {
        return false;
      }
      if !o.ip.V4? {
        return false;
      }
      var allowed := ValidateFetchIP(o.ip, denied);
      if !allowed {
        return false;
      }
      if o.expiresAt <= now && o.decision != Proxy {
        return false;
      }
      if o.expiresAt > maxDeadline {
        return false;
      }
      assert batch[..i + 1] == batch[..i] + [o];
    }
    assert batch[..|batch|] == batch;
    ok := true;
  }

  method FoldBatch(batch: seq<Observation>) returns (folded: Folded)
    requires Decided(batch)
    ensures folded == Fold(batch)
  {
    folded := map[];
    for i := 0 to |batch|
      invariant folded == Fold(batch[..i])
      invariant forall k :: k in folded ==> folded[k].decision != Unknown
    {
      var o := batch[i];
      var k := o.ip.u;
      assert batch[..i + 1][..i] == batch[..i];
      if k !in folded {
        folded := folded[k := o];
      } else {
        var existing := folded[k];
        if existing.decision == Direct && o.decision == Proxy {
          folded := folded[k := o];
        } else if existing.decision == Proxy && o.decision == Direct {
          // Keep the Proxy and its deadline.
        } else if o.expiresAt > existing.expiresAt {
          folded := folded[k := o];
        }
      }
      assert folded == Fold(batch[..i + 1]);
    }
    assert batch[..|batch|] == batch;
  }

  function Put(m: Entries, k: U32, e: Option<Entry>): Entries {
    match e
    case None => m - {k}
    case Some(value) => m[k := value]
  }

  ghost predicate AnyProxy(folded: Folded) {
    exists k :: k in folded && folded[k].decision == Proxy
  }

  lemma MergeNothing(entries: Entries, now: Time)
    ensures Merge(entries, map[], now) == entries
  {
  }

  /** Merging one more address of those still to do: the others are untouched by it. */
  lemma MergeOneMore(entries: Entries, folded: Folded, todo: set<U32>, k: U32, now: Time)
    requires k in todo && todo <= folded.Keys && DecidedEntries(entries)
    ensures var m, o := Merge(entries, folded - todo, now), folded[k];
            && Get(m, k) == Get(entries, k)
            && (k in m ==> m[k].decision != Unknown)
            && Merge(entries, folded - (todo - {k}), now) == Put(m, k, MergeOne(Get(m, k), o, now))
            && (AnyProxy(folded - (todo - {k})) <==> AnyProxy(folded - todo) || o.decision == Proxy)
  {
    var before, more := folded - todo, folded - (todo - {k});
    assert more == before[k := folded[k]];
    assert Get(Merge(entries, before, now), k) == Get(entries, k);
    AnyProxyOneMore(before, k, folded[k]);
  }

  lemma AnyProxyOneMore(folded: Folded, k: U32, o: Observation)
    requires k !in folded
    ensures AnyProxy(folded[k := o]) <==> AnyProxy(folded) || o.decision == Proxy
  {
    var more := folded[k := o];
    assert more[k] == o;
    if j :| j in folded && folded[j].decision == Proxy { assert more[j].decision == Proxy; }
  }

  /** The body of the merge loop: one observation against the entry of its address. */
  method MergeObservation(entries: Entries, k: U32, o: Observation, now: nat) returns (newEntries: Entries)
    requires o.decision != Unknown && (k in entries ==> entries[k].decision != Unknown)
    ensures newEntries == Put(entries, k, MergeOne(Get(entries, k), o, now))
  {
    newEntries := entries;
    if k !in newEntries {
      if o.decision == Proxy && o.expiresAt <= now {
        return;
      }
      newEntries := newEntries[k := Entry(o.decision, o.expiresAt)];
      return;
    }
    var existing := newEntries[k];
    if existing.decision == Direct && o.decision == Direct {
      newEntries := newEntries[k := Entry(Direct, MaxTime(existing.expiresAt, o.expiresAt))];
    } else if existing.decision == Direct && o.decision == Proxy {
      if o.expiresAt <= now {
        newEntries := newEntries - {k};
      } else {
        newEntries := newEntries[k := Entry(Proxy, o.expiresAt)];
      }
    } else if existing.decision == Proxy && o.decision == Direct {
      // Keep the Proxy and its deadline.
    } else if existing.decision == Proxy && o.decision == Proxy {
      newEntries := newEntries[k := Entry(Proxy, MaxTime(existing.expiresAt, o.expiresAt))];
    }
  }

  method MergeConflictResolution(entries: Entries, folded: Folded, now: nat)
    returns (newEntries: Entries, hasIncomingProxy: bool)
    requires DecidedEntries(entries)
    requires forall k :: k in folded ==> folded[k].decision != Unknown
    ensures newEntries == Merge(entries, folded, now)
    ensures hasIncomingProxy <==> AnyProxy(folded)
  {
    newEntries := entries;
    hasIncomingProxy := false;
    var todo := folded.Keys;
    MergeNothing(entries, now);
    while todo != {}
      invariant todo <= folded.Keys
      invariant newEntries == Merge(entries, folded - todo, now)
      invariant hasIncomingProxy <==> AnyProxy(folded - todo)
      decreases |todo|
    {
      NonEmpty(todo);
      var k :| k in todo;
      var o := folded[k];
      MergeOneMore(entries, folded, todo, k, now);
      if o.decision == Proxy {
        hasIncomingProxy := true;
      }
      newEntries := MergeObservation(newEntries, k, o, now);
      todo := todo - {k};
    }
    assert folded - {} == folded;
  }

  method PruneExpired(entries: Entries, now: nat) returns (alive: Entries)
    ensures alive == Prune(entries, now)
  {
    alive := map[];
    var todo := entries.Keys;
    while todo != {}
      invariant todo <= entries.Keys
      invariant alive == map k | k in entries && k !in todo && now < entries[k].expiresAt :: entries[k]
      decreases |todo|
    {
      NonEmpty(todo);
      var k :| k in todo;
      todo := todo - {k};
      if now < entries[k].expiresAt {
        alive := alive[k := entries[k]];
      }
    }
  }

  /** The eviction loop: Direct entries go, in whatever order they come up, until
      enough are gone or none is left. */
  method EvictDirect(merged: Entries, needed: nat) returns (kept: Entries, evicted: nat)
    requires DecidedEntries(merged) && needed > 0
    ensures kept.Keys <= merged.Keys && forall k :: k in kept ==> kept[k] == merged[k]
    ensures forall k :: k in merged && k !in kept ==> merged[k].decision == Direct
    ensures |merged| - |kept| == evicted <= needed
    ensures evicted < needed ==> kept.Keys == KeysOf(merged, Proxy)
  {
    kept := merged;
    evicted := 0;
    var todo := merged.Keys;
    while todo != {}
      invariant todo <= merged.Keys && evicted < needed
      invariant kept.Keys <= merged.Keys && forall k :: k in kept ==> kept[k] == merged[k]
      invariant forall k :: k in merged && k !in kept ==> merged[k].decision == Direct
      invariant forall k :: k in kept && kept[k].decision == Direct ==> k in todo
      invariant todo <= kept.Keys + todo
      invariant forall k :: k in todo ==> k in kept
      invariant |merged| - |kept| == evicted
      decreases |todo|
    {
      NonEmpty(todo);
      var k :| k in todo;
      todo := todo - {k};
      if kept[k].decision == Direct {
        assert |(kept - {k}).Keys| == |kept.Keys - {k}| == |kept.Keys| - 1;
        kept := kept - {k};
        evicted := evicted + 1;
        if evicted >= needed {
          return;
        }
      }
    }
  }

  /** The latest deadline among old entries and the batch, from `base` on. */
  method LatestDeadline(base: Time, entries: Entries, folded: Folded) returns (until: Time)
    ensures until == Latest(base, Deadlines(entries) + FoldedDeadlines(folded))
  {
    until := base;
    var todo := entries.Keys;
    while todo != {}
      invariant todo <= entries.Keys && until >= base
      invariant until == base || until in Deadlines(entries)
      invariant forall k :: k in entries && k !in todo ==> entries[k].expiresAt <= until
      decreases |todo|
    {
      NonEmpty(todo);
      var k :| k in todo;
      todo := todo - {k};
      if entries[k].expiresAt > until {
        until := entries[k].expiresAt;
      }
    }
    todo := folded.Keys;
    while todo != {}
      invariant todo <= folded.Keys && until >= base
      invariant until == base || until in Deadlines(entries) + FoldedDeadlines(folded)
      invariant forall k :: k in entries ==> entries[k].expiresAt <= until
      invariant forall k :: k in folded && k !in todo ==> folded[k].expiresAt <= until
      decreases |todo|
    {
      NonEmpty(todo);
      var k :| k in todo;
      todo := todo - {k};
      if folded[k].expiresAt > until {
        until := folded[k].expiresAt;
      }
    }
    LatestIsUnique(base, Deadlines(entries) + FoldedDeadlines(folded), until);
  }

  /** Extending a running quarantine: only Proxy observations count. */
  method LatestProxyDeadline(base: Time, folded: Folded) returns (until: Time)
    ensures until == Latest(base, ProxyDeadlines(folded))
  {
    until := base;
    var todo := folded.Keys;
    while todo != {}
      invariant todo <= folded.Keys && until >= base
      invariant until == base || until in ProxyDeadlines(folded)
      invariant forall k :: k in folded && k !in todo && folded[k].decision == Proxy ==> folded[k].expiresAt <= until
      decreases |todo|
    {
      NonEmpty(todo);
      var k :| k in todo;
      todo := todo - {k};
      if folded[k].decision == Proxy && folded[k].expiresAt > until {
        until := folded[k].expiresAt;
      }
    }
    LatestIsUnique(base, ProxyDeadlines(folded), until);
  }

  function Expired(entries: Entries, now: nat): set<U32> {
    set k | k in entries && now >= entries[k].expiresAt
  }

  lemma ExpiredAndAlive(entries: Entries, now: nat)
    ensures |Expired(entries, now)| == |entries| - |Prune(entries, now)|
    ensures Expired(entries, now) == {} ==> Prune(entries, now) == entries
  {
    var alive := Prune(entries, now).Keys;
    SubsetSize(alive, entries.Keys);
    assert Expired(entries, now) == entries.Keys - alive;
    assert |alive| == |Prune(entries, now)| && |entries.Keys| == |entries|;
    if Expired(entries, now) == {} { assert alive == entries.Keys; }
  }

  /** Sweep's inner loop: the replacement map is built at the first expired entry. */
  method SweepEntries(entries: Entries, now: nat) returns (newEntries: Option<Entries>, pruned: nat)
    ensures pruned == |entries| - |Prune(entries, now)|
    ensures newEntries == if pruned > 0 then Some(Prune(entries, now)) else None
    ensures pruned == 0 ==> Prune(entries, now) == entries
  {
    newEntries := None;
    pruned := 0;
    var todo := entries.Keys;
    ghost var expired: set<U32> := {};
    while todo != {}
      invariant todo <= entries.Keys
      invariant expired == Expired(entries, now) - todo
      invariant pruned == |expired|
      invariant newEntries == if pruned > 0 then Some(Prune(entries, now)) else None
      decreases |todo|
    {
      NonEmpty(todo);
      var k :| k in todo;
      todo := todo - {k};
      if now >= entries[k].expiresAt {
        expired := expired + {k};
        pruned := pruned + 1;
        if newEntries == None {
          var others := PruneExpired(entries - {k}, now);
          assert others == Prune(entries, now);
          newEntries := Some(others);
        }
      }
    }
    assert expired == Expired(entries, now);
    ExpiredAndAlive(entries, now);
  }

  /** Eviction followed by the second look at the caps: the quarantine condition of the
      source holds exactly when the Proxy entries alone do not fit. */
  lemma RecheckIsProxyOverflow(c: Cache, v: View, merged: Entries, kept: Entries, evicted: nat, hasIncomingProxy: bool)
    requires DecidedEntries(merged) && Excess(c, v, merged) > 0
    requires kept.Keys <= merged.Keys && forall k :: k in kept ==> kept[k] == merged[k]
    requires forall k :: k in merged && k !in kept ==> merged[k].decision == Direct
    requires |merged| - |kept| == evicted <= Excess(c, v, merged)
    requires evicted < Excess(c, v, merged) ==> kept.Keys == KeysOf(merged, Proxy)
    ensures var again := || |kept| > c.cfg.maxPerSession
                         || c.total + |kept| - |v.entries| > c.cfg.maxTotal
                         || (hasIncomingProxy && evicted < Excess(c, v, merged));
            && (again <==> ProxiesOverflow(c, v, merged))
            && (!again ==> Evicted(merged, kept, Excess(c, v, merged)))
  {
    assert |kept.Keys| == |kept|;
    assert KeysOf(merged, Proxy) <= kept.Keys;
    SubsetSize(KeysOf(merged, Proxy), kept.Keys);
  }

  /** Without an eviction nothing overflows. */
  lemma NoExcessNoOverflow(c: Cache, v: View, merged: Entries)
    requires Excess(c, v, merged) <= 0
    ensures !ProxiesOverflow(c, v, merged) && Evicted(merged, merged, Excess(c, v, merged))
  {
    assert |merged.Keys| == |merged|;
    SubsetSize(KeysOf(merged, Proxy), merged.Keys);
  }

  // ---- the objects ---------------------------------------------------------

  /** A handle on one client session. `index` is its place among all handles the
      cache has ever given out. */
  class SessionCache {
    const cache: RouteCache
    const scope: Scope
    ghost const index: nat
    var view: View

    constructor (cache: RouteCache, scope: Scope, ghost index: nat, view: View)
      ensures this.cache == cache && this.scope == scope && this.index == index && this.view == view
    {
      this.cache, this.scope, this.index, this.view := cache, scope, index, view;
    }

    /** The handle is where the cache thinks it is. */
    ghost predicate Linked()
      reads this, cache, cache.handles
    {
      && cache.Shape() && index < |cache.handles| && cache.handles[index] == this
      && cache.state.handles[index] == Session(scope, view)
    }

    ghost predicate Attached()
      reads this, cache, cache.handles
    {
      Linked() && Inv(cache.state)
    }

    /** Publishes a view and adjusts the entry counter. */
    method Publish(v: View, newTotal: int)
      requires Linked()
      modifies this`view, cache`totalEntries, cache`state
      ensures Linked() && view == v
      ensures cache.state == old(cache.state).WithView(index, v, newTotal)
    {
      view := v;
      cache.totalEntries := newTotal;
      cache.state := cache.state.WithView(index, v, newTotal);
      forall i | 0 <= i < |cache.handles| ensures cache.InPlace(i) {
        assert old(cache.InPlace(i));
      }
    }

    /** One load of the published view, no lock. */
    method Lookup(ip: Addr, generation: string, now: Time) returns (d: Decision)
      ensures d == LookupView(view, ip, generation, now)
    {
      var v := view;
      if v.retired {
        return Unknown;
      }
      if v.generation == "" || v.generation != generation {
        return Unknown;
      }
      if v.unknownUntil != 0 && now < v.unknownUntil {
        return Unknown;
      }
      if !ip.V4? {
        return Unknown;
      }
      if ip.u !in v.entries {
        return Unknown;
      }
      var entry := v.entries[ip.u];
      if now >= entry.expiresAt {
        return Unknown;
      }
      return entry.decision;
    }

    method QuarantineSession(currentView: View, folded: Folded)
      requires Linked() && currentView == view
      modifies this`view, cache`totalEntries, cache`state
      ensures Linked()
      ensures cache.state == QuarantineStep(old(cache.state), index, folded)
    {
      var until := LatestDeadline(currentView.unknownUntil, currentView.entries, folded);
      Publish(RouteView.View(map[], cache.policyGeneration, until, false),
              cache.totalEntries - |currentView.entries|);
    }

    method ExtendQuarantine(currentView: View, folded: Folded)
      requires Linked() && currentView == view
      modifies this`view, cache`totalEntries, cache`state
      ensures Linked()
      ensures cache.state == ExtendStep(old(cache.state), index, folded)
    {
      var until := LatestProxyDeadline(currentView.unknownUntil, folded);
      if until != currentView.unknownUntil {
        Publish(RouteView.View(map[], cache.policyGeneration, until, false), cache.totalEntries);
      } else {
        assert cache.state == cache.state.WithView(index, view, cache.totalEntries);
      }
    }

    /** Makes room by dropping Direct entries; quarantines the session when that is
        not enough. */
    method CheckCapacityAndEvict(currentView: View, merged: Entries, folded: Folded, hasIncomingProxy: bool)
      returns (kept: Entries, exceeded: bool)
      requires Linked() && currentView == view && DecidedEntries(merged)
      modifies this`view, cache`totalEntries, cache`state
      ensures Linked()
      ensures exceeded <==> ProxiesOverflow(old(cache.state), currentView, merged)
      ensures !exceeded ==> view == old(view) && cache.state == old(cache.state)
                            && Evicted(merged, kept, Excess(cache.state, currentView, merged))
      ensures exceeded ==> cache.state == QuarantineStep(old(cache.state), index, folded)
    {
      ghost var c := cache.state;
      var needed := 0;
      var sessionExcess := |merged| - cache.cfg.maxPerSession;
      if sessionExcess > 0 {
        needed := sessionExcess;
      }
      var delta := |merged| - |currentView.entries|;
      var totalExcess := cache.totalEntries + delta - cache.cfg.maxTotal;
      if totalExcess > needed {
        needed := totalExcess;
      }
      if needed <= 0 {
        NoExcessNoOverflow(c, currentView, merged);
        return merged, false;
      }
      var evicted;
      kept, evicted := EvictDirect(merged, needed);
      RecheckIsProxyOverflow(c, currentView, merged, kept, evicted, hasIncomingProxy);
      var newDelta := |kept| - |currentView.entries|;
      if || |kept| > cache.cfg.maxPerSession
         || cache.totalEntries + newDelta > cache.cfg.maxTotal
         || (hasIncomingProxy && evicted < needed)
      {
        QuarantineSession(currentView, folded);
        return kept, true;
      }
      return kept, false;
    }

    /** Makes room for the merged entries and publishes them. */
    method Place(currentView: View, merged: Entries, folded: Folded, hasIncomingProxy: bool) returns (r: Outcome)
      requires Linked() && currentView == view && DecidedEntries(merged)
      modifies this`view, cache`totalEntries, cache`state
      ensures Linked()
      ensures PlaceStep(old(cache.state), index, merged, folded, cache.state, r)
    {
      ghost var c := cache.state;
      var kept, exceeded := CheckCapacityAndEvict(currentView, merged, folded, hasIncomingProxy);
      if exceeded {
        return CapacityExceeded;
      }
      Publish(RouteView.View(kept, cache.policyGeneration, 0, false),
              cache.totalEntries + |kept| - |currentView.entries|);
      assert Admitted(c, index, merged, kept, cache.state);
      return Accepted;
    }

    /** The part of Observe under the lock. */
    method ObserveLocked(generation: string, folded: Folded, now: nat) returns (r: Outcome)
      requires Linked() && DecidedEntries(view.entries)
      requires forall k :: k in folded ==> folded[k].decision != Unknown
      modifies this`view, cache`totalEntries, cache`state
      ensures Linked()
      ensures LockedStep(old(cache.state), index, generation, folded, now, cache.state, r)
    {
      var currentView := view;
      if currentView.retired {
        return SessionRetired;
      }
      if generation != cache.policyGeneration || cache.policyGeneration != currentView.generation {
        return GenerationMismatch;
      }
      if currentView.unknownUntil != 0 && now < currentView.unknownUntil {
        ExtendQuarantine(currentView, folded);
        return CapacityExceeded;
      }
      var alive := PruneExpired(currentView.entries, now);
      MergeIsDecided(currentView.entries, folded, now);
      var merged, hasIncomingProxy := MergeConflictResolution(alive, folded, now);
      r := Place(currentView, merged, folded, hasIncomingProxy);
    }

    /** Early exits, fold, and the locked part. */
    method ObserveChecked(generation: string, batch: seq<Observation>, now: nat) returns (r: Outcome)
      requires Linked() && DecidedEntries(view.entries) && cache.DeniedReady()
      modifies this`view, cache`totalEntries, cache`state
      ensures Linked()
      ensures ObserveStep(old(cache.state), index, generation, batch, now, cache.state, r)
    {
      if generation == "" {
        return InvalidGeneration;
      }
      if |batch| == 0 {
        return Accepted;
      }
      var valid := ValidateBatch(batch, now, cache.cfg.maxTTL, cache.deniedRanges);
      if !valid {
        return InvalidObservation;
      }
      var folded := FoldBatch(batch);
      FoldPicksWinners(batch);
      r := ObserveLocked(generation, folded, now);
    }

    method Observe(generation: string, batch: seq<Observation>, now: nat) returns (r: Outcome)
      requires Attached() && cache.DeniedReady()
      modifies this`view, cache`totalEntries, cache`state
      ensures Attached()
      ensures ObserveStep(old(cache.state), index, generation, batch, now, cache.state, r)
    {
      ghost var c := cache.state;
      assert HandleInv(c, index);
      r := ObserveChecked(generation, batch, now);
      ObserveInv(c, index, generation, batch, now, cache.state, r);
    }

    /** The body of the sweep loop. */
    method SweepView(now: nat)
      requires Linked()
      requires !view.retired && (view.unknownUntil != 0 ==> view.entries == map[])
      modifies this`view, cache`totalEntries, cache`state
      ensures Linked()
      ensures var c := old(cache.state); var v := RouteView.SweepView(old(view), now);
              cache.state == c.WithView(index, v, c.total - |old(view).entries| + |v.entries|)
    {
      var v := view;
      var clearedQuarantine := false;
      var unknownUntil := v.unknownUntil;
      if unknownUntil != 0 && now >= unknownUntil {
        unknownUntil := 0;
        clearedQuarantine := true;
      }
      var newEntries, pruned := SweepEntries(v.entries, now);
      if pruned > 0 || clearedQuarantine {
        var entries := if newEntries.None? then v.entries else newEntries.value;
        Publish(RouteView.View(entries, v.generation, unknownUntil, false), cache.totalEntries - pruned);
      } else {
        assert cache.state == cache.state.WithView(index, view, cache.totalEntries);
      }
    }

    method Retire()
      requires Linked()
      modifies this`view, cache`totalEntries, cache`state, cache`sessions
      ensures Linked() && cache.state == InvalidateStep(old(cache.state), index)
    {
      var oldView := view;
      if oldView.retired {
        return;
      }
      Publish(RETIRED_VIEW, cache.totalEntries - |oldView.entries|);
      cache.Forget(scope);
    }

    /** Retires the handle for good and takes its scope out of the map. */
    method Invalidate()
      requires Attached()
      modifies this`view, cache`totalEntries, cache`state, cache`sessions
      ensures Attached()
      ensures cache.state == InvalidateStep(old(cache.state), index)
    {
      InvalidateInv(cache.state, index);
      Retire();
    }
  }

  class RouteCache {
    const cfg: Config
    const deniedRanges: Ipv4.Index
    var policyGeneration: string
    var sessions: map<Scope, SessionCache>
    var totalEntries: int
    ghost var handles: seq<SessionCache>
    ghost var state: Cache

    /** The fields of the cache and of its handles are those of `state`. */
    ghost predicate Shape()
      reads this, handles
    {
      && state == Cache(cfg, policyGeneration, state.handles, state.sessions, totalEntries)
      && |handles| == |state.handles|
      && (forall i {:trigger InPlace(i)} :: 0 <= i < |handles| ==> InPlace(i))
      && sessions.Keys == state.sessions.Keys
      && (forall scope :: scope in sessions ==>
            && state.sessions[scope] < |handles|
            && handles[state.sessions[scope]] == sessions[scope])
    }

    /** Built once, when the program starts. */
    ghost predicate DeniedReady() {
      Ipv4.Indexes(deniedRanges, DENIED)
    }

    /** The tie between the fields of a handle and the abstract state. */
    ghost predicate InPlace(i: nat)
      requires i < |handles| == |state.handles|
      reads this, handles
    {
      && handles[i].index == i && handles[i].cache == this
      && state.handles[i] == Session(handles[i].scope, handles[i].view)
    }

    ghost predicate Valid()
      reads this, handles
    {
      Shape() && Inv(state)
    }

    constructor (cfg: Config, deniedRanges: Ipv4.Index)
      requires Ipv4.Indexes(deniedRanges, DENIED)
      requires cfg.maxSessions > 0 && cfg.maxPerSession > 0 && cfg.maxTotal > 0 && cfg.maxTTL > 0
      ensures Valid() && DeniedReady() && this.cfg == cfg && RouteRuns.Initial(state)
    {
      this.cfg, this.deniedRanges := cfg, deniedRanges;
      policyGeneration, sessions, totalEntries := "", map[], 0;
      handles := [];
      state := Cache(cfg, "", [], map[], 0);
    }

    method Open(scope: Scope) returns (s: SessionCache?, ghost r: OpenReply)
      requires Valid()
      modifies this`sessions, this`handles, this`state
      ensures Valid() && old(handles) <= handles
      ensures OpenStep(old(state), scope, state, r)
      ensures s != null <==> r.Opened?
      ensures s != null ==> s.Attached() && s.cache == this && r == Opened(s.index)
    {
      s := null;
      if scope.sessionId == "" {
        r := InvalidScope;
        return;
      }
      if scope in sessions {
        s := sessions[scope];
        r := Opened(state.sessions[scope]);
        assert InPlace(state.sessions[scope]);
        return;
      }
      assert |sessions.Keys| == |sessions| && |state.sessions.Keys| == |state.sessions|;
      if |sessions| >= cfg.maxSessions {
        r := MaxSessionsReached;
        return;
      }
      r := Opened(|handles|);
      ghost var next := state.(handles := state.handles + [Session(scope, FreshView(policyGeneration))],
                               sessions := state.sessions[scope := |handles|]);
      OpenInv(state, scope, next, r);
      s := Admit(scope);
    }

    /** Adds a handle with a fresh view under the current generation. */
    method Admit(scope: Scope) returns (s: SessionCache)
      requires Shape() && scope !in sessions
      modifies this`sessions, this`handles, this`state
      ensures Shape() && s.Linked() && s.cache == this && s.index == |old(handles)|
      ensures handles == old(handles) + [s]
      ensures state == old(state).(handles := old(state.handles) + [Session(scope, FreshView(policyGeneration))],
                                   sessions := old(state.sessions)[scope := |old(handles)|])
    {
      s := new SessionCache(this, scope, |handles|, FreshView(policyGeneration));
      sessions := sessions[scope := s];
      state := state.(handles := state.handles + [Session(scope, s.view)],
                      sessions := state.sessions[scope := |handles|]);
      handles := handles + [s];
      forall i | 0 <= i < |handles| ensures InPlace(i) {
        if i < |old(handles)| { assert old(InPlace(i)); }
      }
    }

    /** delete(c.sessions, scope) */
    method Forget(scope: Scope)
      requires Shape()
      modifies this`sessions, this`state
      ensures Shape() && state == old(state).(sessions := old(state).sessions - {scope})
    {
      sessions := sessions - {scope};
      state := state.(sessions := state.sessions - {scope});
      forall i | 0 <= i < |handles| ensures InPlace(i) {
        assert old(InPlace(i));
      }
    }

    /** Sets the cache's own fields, leaving its sessions alone. */
    method Relabel(generation: string, newTotal: int)
      requires Shape()
      modifies this`policyGeneration, this`totalEntries, this`state
      ensures Shape() && state == old(state).(generation := generation, total := newTotal)
    {
      policyGeneration := generation;
      totalEntries := newTotal;
      state := state.(generation := generation, total := newTotal);
      forall i | 0 <= i < |handles| ensures InPlace(i) {
        assert old(InPlace(i));
      }
    }

    /** Empties every open view when the generation really changes. */
    method SetPolicyGeneration(generation: string)
      requires Valid()
      modifies this`policyGeneration, this`totalEntries, this`state, handles
      ensures Valid()
      ensures state == SetGenerationStep(old(state), generation)
    {
      ghost var c := state;
      SetGenerationInv(c, generation);
      if generation == policyGeneration {
        return;
      }
      Relabel(generation, totalEntries);
      RegenerateNone(c, generation);
      RegenerateSessions(generation, c);
      RegenerateAll(c, generation);
      Relabel(generation, 0);
    }

    method RegenerateSessions(generation: string, ghost c: Cache)
      requires Shape() && Inv(c) && state == c.(generation := generation)
      requires state == RegeneratedBut(c, c.sessions.Keys, generation)
      modifies this`totalEntries, this`state, handles
      ensures Shape() && state == RegeneratedBut(c, {}, generation)
    {
      var todo := sessions.Keys;
      while todo != {}
        invariant Shape() && todo <= c.sessions.Keys && state == RegeneratedBut(c, todo, generation)
        decreases |todo|
      {
        NonEmpty(todo);
        var scope :| scope in todo;
        RegenerateOne(c, todo, scope, generation);
        RegenerateScope(scope, generation);
        todo := todo - {scope};
      }
    }

    /** The body of the loop over the sessions. */
    method RegenerateScope(scope: Scope, generation: string)
      requires Shape() && LiveScope(state, scope)
      modifies this`totalEntries, this`state, sessions[scope]
      ensures Shape() && state == RegeneratedOnce(old(state), scope, generation)
    {
      var s := sessions[scope];
      assert InPlace(state.sessions[scope]);
      var oldView := s.view;
      if !oldView.retired {
        s.Publish(RouteView.View(map[], generation, oldView.unknownUntil, false), totalEntries);
      }
    }

    /** The body of the loop over the sessions. */
    method SweepScope(scope: Scope, now: nat)
      requires Shape() && LiveScope(state, scope)
      modifies this`totalEntries, this`state, sessions[scope]
      ensures Shape() && state == SweptOnce(old(state), scope, now)
    {
      var s := sessions[scope];
      assert InPlace(state.sessions[scope]);
      s.SweepView(now);
    }

    /** Prunes expired entries and clears expired quarantines, session by session. */
    method Sweep(now: nat)
      requires Valid()
      modifies this`totalEntries, this`state, handles
      ensures Valid()
      ensures state == SweepStep(old(state), now)
    {
      ghost var c := state;
      SweepInv(c, now);
      SweepNone(c, now);
      SweepSessions(now, c);
      SweepAll(c, now);
    }

    method SweepSessions(now: nat, ghost c: Cache)
      requires Shape() && Inv(c) && state.sessions == c.sessions
      requires state == SweptBut(c, c.sessions.Keys, now)
      modifies this`totalEntries, this`state, handles
      ensures Shape() && state == SweptBut(c, {}, now)
    {
      var todo := sessions.Keys;
      while todo != {}
        invariant Shape() && todo <= c.sessions.Keys && state == SweptBut(c, todo, now)
        decreases |todo|
      {
        NonEmpty(todo);
        var scope :| scope in todo;
        SweepOne(c, todo, scope, now);
        SweepScope(scope, now);
        todo := todo - {scope};
      }
    }
  }

  /** The scope is open, and a quarantine deadline on it comes without entries. */
  ghost predicate LiveScope(c: Cache, scope: Scope) {
    && scope in c.sessions && c.sessions[scope] < |c.handles|
    && var v := c.View(c.sessions[scope]);
       !v.retired && (v.unknownUntil != 0 ==> v.entries == map[])
  }

  ghost function RegeneratedOnce(c: Cache, scope: Scope, generation: string): Cache
    requires LiveScope(c, scope)
  {
    var id := c.sessions[scope];
    c.WithView(id, Regenerate(c.handles[id], generation).view, c.total)
  }

  ghost function SweptOnce(c: Cache, scope: Scope, now: nat): Cache
    requires LiveScope(c, scope)
  {
    var id := c.sessions[scope];
    var v := SweptSession(c.handles[id], now).view;
    c.WithView(id, v, c.total - |c.View(id).entries| + |v.entries|)
  }

  /** Half-way through SetPolicyGeneration: all live sessions but those still to do
      are empty and under the new generation. */
  ghost function RegeneratedBut(c: Cache, todo: set<Scope>, generation: string): Cache {
    c.(generation := generation,
       handles := seq(|c.handles|, i requires 0 <= i < |c.handles| =>
         if c.handles[i].scope in todo then c.handles[i] else Regenerate(c.handles[i], generation)))
  }

  lemma RegenerateNone(c: Cache, generation: string)
    requires Inv(c)
    ensures RegeneratedBut(c, c.sessions.Keys, generation) == c.(generation := generation)
  {
    var c' := RegeneratedBut(c, c.sessions.Keys, generation);
    forall i | 0 <= i < |c.handles| ensures c'.handles[i] == c.handles[i] {
      assert HandleInv(c, i);
    }
    assert c'.handles == c.handles;
  }

  lemma RegenerateOne(c: Cache, todo: set<Scope>, scope: Scope, generation: string)
    requires Inv(c) && scope in todo && todo <= c.sessions.Keys
    ensures var c' := RegeneratedBut(c, todo, generation);
            && LiveScope(c', scope)
            && RegeneratedOnce(c', scope, generation) == RegeneratedBut(c, todo - {scope}, generation)
  {
    OpenSession(c, scope);
    var once := RegeneratedOnce(RegeneratedBut(c, todo, generation), scope, generation);
    var next := RegeneratedBut(c, todo - {scope}, generation);
    forall i | 0 <= i < |c.handles| ensures once.handles[i] == next.handles[i] {
      assert HandleInv(c, i);
    }
    assert once.handles == next.handles;
  }

  lemma RegenerateAll(c: Cache, generation: string)
    requires generation != c.generation
    ensures RegeneratedBut(c, {}, generation).(total := 0) == SetGenerationStep(c, generation)
  {
    assert RegeneratedBut(c, {}, generation).handles == SetGenerationStep(c, generation).handles;
  }

  /** Half-way through Sweep. */
  ghost function SweptBut(c: Cache, todo: set<Scope>, now: nat): Cache {
    var handles := seq(|c.handles|, i requires 0 <= i < |c.handles| =>
      if c.handles[i].scope in todo then c.handles[i] else SweptSession(c.handles[i], now));
    c.(handles := handles, total := Count(handles))
  }

  lemma SweepNone(c: Cache, now: nat)
    requires Inv(c)
    ensures SweptBut(c, c.sessions.Keys, now) == c
  {
    var c' := SweptBut(c, c.sessions.Keys, now);
    forall i | 0 <= i < |c.handles| ensures c'.handles[i] == c.handles[i] {
      assert HandleInv(c, i);
    }
    assert c'.handles == c.handles;
  }

  lemma SweepOne(c: Cache, todo: set<Scope>, scope: Scope, now: nat)
    requires Inv(c) && scope in todo && todo <= c.sessions.Keys
    ensures var c' := SweptBut(c, todo, now);
            && LiveScope(c', scope)
            && SweptOnce(c', scope, now) == SweptBut(c, todo - {scope}, now)
  {
    OpenSession(c, scope);
    var id := c.sessions[scope];
    var c', next := SweptBut(c, todo, now), SweptBut(c, todo - {scope}, now);
    CountUpdate(c'.handles, id, SweptSession(c.handles[id], now));
    forall i | 0 <= i < |c.handles|
      ensures c'.handles[id := SweptSession(c.handles[id], now)][i] == next.handles[i]
    {
      assert HandleInv(c, i);
    }
    assert c'.handles[id := SweptSession(c.handles[id], now)] == next.handles;
  }

  lemma SweepAll(c: Cache, now: nat)
    ensures SweptBut(c, {}, now) == SweepStep(c, now)
  {
    assert SweptBut(c, {}, now).handles == SweptHandles(c.handles, now);
  }

  /** What a consistent state holds for an open scope. */
  lemma OpenSession(c: Cache, scope: Scope)
    requires Inv(c) && scope in c.sessions
    ensures var id := c.sessions[scope];
            && id < |c.handles| && c.handles[id].scope == scope
            && !c.View(id).retired && ViewInv(c.View(id), c.cfg)
  {
    assert HandleInv(c, c.sessions[scope]);
  }

  /** NewRouteCache: defaults for limits that are not positive, refusal above the hard
      limits (null stands for the error). */
  method NewRouteCache(raw: RawConfig, deniedRanges: Ipv4.Index) returns (c: RouteCache?)
    requires Ipv4.Indexes(deniedRanges, DENIED)
    ensures c != null <==> WithinHardLimits(Defaulted(raw))
    ensures c != null ==> fresh(c) && c.Valid() && c.DeniedReady() && c.cfg == Defaulted(raw) && RouteRuns.Initial(c.state)
  {
    var cfg := Defaulted(raw);
    if !WithinHardLimits(cfg) {
      return null;
    }
    c := new RouteCache(cfg, deniedRanges);
  }
}
