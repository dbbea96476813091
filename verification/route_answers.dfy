/** What the route cache does answer: accepted evidence is found by later lookups, room is
    used, and what expired or was left behind is given back. */
module RouteAnswers {
  import opened Netip
  import opened Instants
  import opened Sets
  import opened RouteView
  import opened RouteMachine
  import opened RouteRuns

  // ---- Proxy is answered ---------------------------------------------------

  /** The view answers with this decision for the address until d at least. */
  predicate Holding(v: View, generation: string, ip: U32, decision: Decision, d: Time) {
    && !v.retired && v.generation == generation && generation != ""
    && ip in v.entries && v.entries[ip].decision == decision && v.entries[ip].expiresAt >= d
  }

  /** The step does not end what the session has learned. */
  predicate Spares(m: Move, id: nat) {
    && !ChangesGeneration(m) && m.event != Invalidate(id)
    && !(m.event.Observe? && m.event.id == id && m.reply == ObserveR(CapacityExceeded))
  }

  /** What an eviction may leave of the merged entries: all Proxies, and all of it unless
      a cap is reached. */
  ghost predicate LeftOf(merged: Entries, kept: Entries, full: bool) {
    && kept.Keys <= merged.Keys && (forall k :: k in kept ==> kept[k] == merged[k])
    && (forall k :: k in merged && k !in kept ==> merged[k].decision == Direct)
    && (kept == merged || full)
  }

  lemma AcceptedReaches(m: Move)
    requires Took(m) && m.event.Observe? && m.reply == ObserveR(Accepted) && m.event.batch != []
    ensures Reaches(m.pre, m.event.id, m.event.generation, m.event.batch, m.event.now)
  {
  }

  /** An accepted batch with observations leaves a choice of the merged entries. */
  lemma AcceptedView(m: Move)
    requires Inv(m.pre) && Took(m) && m.event.Observe? && m.reply == ObserveR(Accepted) && m.event.batch != []
    ensures ValidBatch(m.event.batch, m.event.now, m.pre.cfg.maxTTL) && m.post.HasHandle(m.event.id)
    ensures var merged, v' := Merged(m.pre.View(m.event.id), Fold(m.event.batch), m.event.now), m.post.View(m.event.id);
            && v' == RouteView.View(v'.entries, m.event.generation, 0, false) && m.event.generation != ""
            && LeftOf(merged, v'.entries, |v'.entries| == m.pre.cfg.maxPerSession || m.post.total == m.pre.cfg.maxTotal)
  {
    var c, id := m.pre, m.event.id;
    AcceptedReaches(m);
    var merged := Merged(c.View(id), Fold(m.event.batch), m.event.now);
    var kept :| Admitted(c, id, merged, kept, m.post);
    EvictedIsLeft(c, c.View(id), merged, kept);
  }

  lemma EvictedIsLeft(c: Cache, v: View, merged: Entries, kept: Entries)
    requires Evicted(merged, kept, Excess(c, v, merged))
    ensures LeftOf(merged, kept, |kept| == c.cfg.maxPerSession || c.total + |kept| - |v.entries| == c.cfg.maxTotal)
  {
    SameSizeSameMap(kept, merged);
  }

  lemma SameSizeSameMap(a: Entries, b: Entries)
    requires a.Keys <= b.Keys && forall k :: k in a ==> a[k] == b[k]
    ensures |a| == |b| ==> a == b
  {
    SubsetSize(a.Keys, b.Keys);
    assert |a.Keys| == |a| && |b.Keys| == |b|;
  }

  /** A Direct entry is evicted only when a cap is reached with what is kept. */
  lemma EvictsOnlyWhenFull(m: Move, ip: U32)
    requires Inv(m.pre) && Took(m) && m.event.Observe? && m.reply == ObserveR(Accepted) && m.event.batch != []
    requires ip in Merged(m.pre.View(m.event.id), Fold(m.event.batch), m.event.now)
    ensures m.post.HasHandle(m.event.id)
    ensures ip !in m.post.View(m.event.id).entries ==>
              |m.post.View(m.event.id).entries| == m.pre.cfg.maxPerSession || m.post.total == m.pre.cfg.maxTotal
  {
    AcceptedView(m);
  }

  lemma ProxyHeld(m: Move, o: Observation)
    requires Inv(m.pre) && Took(m) && m.event.Observe? && m.reply == ObserveR(Accepted)
    requires o in m.event.batch && o.decision == Proxy && o.expiresAt > m.event.now
    ensures m.post.HasHandle(m.event.id) && o.ip.V4?
    ensures Holding(m.post.View(m.event.id), m.event.generation, o.ip.u, Proxy, o.expiresAt)
  {
    AcceptedView(m);
    assert HandleInv(m.pre, m.event.id);
    MergeMeaning(m.pre.View(m.event.id), m.event.batch, m.event.now, m.pre.cfg.maxTTL, o.ip.u);
  }

  /** Through another batch that is taken. */
  lemma ProxyThroughObserve(m: Move, generation: string, ip: U32, d: Time)
    requires Inv(m.pre) && Took(m) && m.event.Observe? && m.event.now < d && m.reply != ObserveR(CapacityExceeded)
    requires Holding(m.pre.View(m.event.id), generation, ip, Proxy, d)
    ensures m.post.HasHandle(m.event.id) && Holding(m.post.View(m.event.id), generation, ip, Proxy, d)
  {
    if m.reply == ObserveR(Accepted) && m.event.batch != [] {
      AcceptedView(m);
      assert HandleInv(m.pre, m.event.id);
      MergeMeaning(m.pre.View(m.event.id), m.event.batch, m.event.now, m.pre.cfg.maxTTL, ip);
    }
  }

  /** Through a step that is not an Observe of this session. */
  lemma HeldThroughOther(m: Move, id: nat, generation: string, ip: U32, decision: Decision, d: Time)
    requires Inv(m.pre) && Took(m) && m.pre.HasHandle(id) && Holding(m.pre.View(id), generation, ip, decision, d)
    requires !(m.event.Observe? && m.event.id == id) && Spares(m, id)
    requires Timed(m.event) ==> m.event.now < d
    ensures m.post.HasHandle(id) && Holding(m.post.View(id), generation, ip, decision, d)
  {
    assert HandleInv(m.pre, id);
    if m.event.Invalidate? { assert HandleInv(m.pre, m.event.id); }
  }

  lemma ProxyStays(run: seq<Move>, k: nat, id: nat, generation: string, ip: U32, d: Time)
    requires IsRun(run) && k < |run| && run[k].pre.HasHandle(id)
    requires Holding(run[k].pre.View(id), generation, ip, Proxy, d) && Spares(run[k], id)
    requires Timed(run[k].event) ==> run[k].event.now < d
    ensures run[k].post.HasHandle(id) && Holding(run[k].post.View(id), generation, ip, Proxy, d)
  {
    ReachableInv(run, k);
    if run[k].event.Observe? && run[k].event.id == id {
      ProxyThroughObserve(run[k], generation, ip, d);
    } else {
      HeldThroughOther(run[k], id, generation, ip, Proxy, d);
    }
  }

  lemma {:induction false} ProxyPersists(run: seq<Move>, i: nat, j: nat, id: nat, generation: string, ip: U32, d: Time)
    requires IsRun(run) && i < j < |run|
    requires run[i].post.HasHandle(id) && Holding(run[i].post.View(id), generation, ip, Proxy, d)
    requires forall k :: i < k < j ==> Spares(run[k], id) && (Timed(run[k].event) ==> run[k].event.now < d)
    ensures run[j].pre.HasHandle(id) && Holding(run[j].pre.View(id), generation, ip, Proxy, d)
  {
    if i + 1 < j {
      ProxyPersists(run, i, j - 1, id, generation, ip, d);
      ProxyStays(run, j - 1, id, generation, ip, d);
    }
  }

  lemma HeldIsAnswered(m: Move, generation: string, decision: Decision, d: Time)
    requires Inv(m.pre) && Took(m) && m.event.Lookup? && m.event.ip.V4? && m.event.generation == generation && m.event.now < d
    requires Holding(m.pre.View(m.event.id), generation, m.event.ip.u, decision, d)
    ensures m.reply == LookupR(decision)
  {
    assert HandleInv(m.pre, m.event.id);
  }

  /** An accepted Proxy is answered: every lookup of its address in that session, under the
      same generation and before its deadline, returns Proxy, unless the generation
      changed, the session was invalidated, or a batch of it was answered with a quarantine
      in between. */
  lemma ProxyIsAnswered(run: seq<Move>, i: nat, j: nat, o: Observation)
    requires IsRun(run) && i < j < |run|
    requires run[i].event.Observe? && run[i].reply == ObserveR(Accepted)
    requires o in run[i].event.batch && o.decision == Proxy && o.expiresAt > run[i].event.now
    requires run[j].event.Lookup? && run[j].event.id == run[i].event.id && run[j].event.ip == o.ip
    requires run[j].event.generation == run[i].event.generation && run[j].event.now < o.expiresAt
    requires forall k :: i < k < j ==> Spares(run[k], run[i].event.id)
    ensures run[j].reply == LookupR(Proxy)
  {
    ReachableInv(run, i);
    ProxyHeld(run[i], o);
    ProxyPersists(run, i, j, run[i].event.id, run[i].event.generation, o.ip.u, o.expiresAt);
    ReachableInv(run, j);
    HeldIsAnswered(run[j], run[i].event.generation, Proxy, o.expiresAt);
  }

  // ---- Direct is answered --------------------------------------------------

  /** The step takes no Proxy for the address, and no cap is reached after it. */
  ghost predicate Favours(m: Move, id: nat, ip: U32) {
    && !TookProxy(m, id, ip)
    && (m.event.Observe? && m.event.id == id && m.reply == ObserveR(Accepted) && m.post.HasHandle(id) ==>
          |m.post.View(id).entries| < m.pre.cfg.maxPerSession && m.post.total < m.pre.cfg.maxTotal)
  }

  lemma DirectHeld(m: Move, o: Observation)
    requires Inv(m.pre) && Took(m) && m.event.Observe? && m.reply == ObserveR(Accepted)
    requires o in m.event.batch && o.decision == Direct && o.ip.V4?
    requires !StillHas(m.pre.View(m.event.id), m.event.now, o.ip.u, Proxy) && Favours(m, m.event.id, o.ip.u)
    ensures m.post.HasHandle(m.event.id)
    ensures Holding(m.post.View(m.event.id), m.event.generation, o.ip.u, Direct, o.expiresAt)
  {
    AcceptedView(m);
    assert HandleInv(m.pre, m.event.id);
    MergeMeaning(m.pre.View(m.event.id), m.event.batch, m.event.now, m.pre.cfg.maxTTL, o.ip.u);
  }

  lemma DirectThroughObserve(m: Move, generation: string, ip: U32, d: Time)
    requires Inv(m.pre) && Took(m) && m.event.Observe? && m.event.now < d && m.reply != ObserveR(CapacityExceeded)
    requires Holding(m.pre.View(m.event.id), generation, ip, Direct, d) && Favours(m, m.event.id, ip)
    ensures m.post.HasHandle(m.event.id) && Holding(m.post.View(m.event.id), generation, ip, Direct, d)
  {
    if m.reply == ObserveR(Accepted) && m.event.batch != [] {
      AcceptedView(m);
      assert HandleInv(m.pre, m.event.id);
      MergeMeaning(m.pre.View(m.event.id), m.event.batch, m.event.now, m.pre.cfg.maxTTL, ip);
    }
  }

  lemma DirectStays(run: seq<Move>, k: nat, id: nat, generation: string, ip: U32, d: Time)
    requires IsRun(run) && k < |run| && run[k].pre.HasHandle(id)
    requires Holding(run[k].pre.View(id), generation, ip, Direct, d) && Spares(run[k], id) && Favours(run[k], id, ip)
    requires Timed(run[k].event) ==> run[k].event.now < d
    ensures run[k].post.HasHandle(id) && Holding(run[k].post.View(id), generation, ip, Direct, d)
  {
    ReachableInv(run, k);
    if run[k].event.Observe? && run[k].event.id == id {
      DirectThroughObserve(run[k], generation, ip, d);
    } else {
      HeldThroughOther(run[k], id, generation, ip, Direct, d);
    }
  }

  lemma {:induction false} DirectPersists(run: seq<Move>, i: nat, j: nat, id: nat, generation: string, ip: U32, d: Time)
    requires IsRun(run) && i < j < |run|
    requires run[i].post.HasHandle(id) && Holding(run[i].post.View(id), generation, ip, Direct, d)
    requires forall k :: i < k < j ==>
      Spares(run[k], id) && Favours(run[k], id, ip) && (Timed(run[k].event) ==> run[k].event.now < d)
    ensures run[j].pre.HasHandle(id) && Holding(run[j].pre.View(id), generation, ip, Direct, d)
  {
    if i + 1 < j {
      DirectPersists(run, i, j - 1, id, generation, ip, d);
      DirectStays(run, j - 1, id, generation, ip, d);
    }
  }

  /** An accepted Direct is answered likewise until its deadline, if no Proxy for the
      address was stored or has been taken and no cap has been reached. Of several accepted
      Directs each is answered until its own deadline, so the latest is in force. */
  lemma DirectIsAnswered(run: seq<Move>, i: nat, j: nat, o: Observation)
    requires IsRun(run) && i < j < |run|
    requires run[i].event.Observe? && run[i].reply == ObserveR(Accepted)
    requires o in run[i].event.batch && o.decision == Direct && o.ip.V4?
    requires run[i].pre.HasHandle(run[i].event.id)
    requires !StillHas(run[i].pre.View(run[i].event.id), run[i].event.now, o.ip.u, Proxy)
    requires run[j].event.Lookup? && run[j].event.id == run[i].event.id && run[j].event.ip == o.ip
    requires run[j].event.generation == run[i].event.generation && run[j].event.now < o.expiresAt
    requires forall k :: i <= k < j ==> Favours(run[k], run[i].event.id, o.ip.u)
    requires forall k :: i < k < j ==> Spares(run[k], run[i].event.id)
    ensures run[j].reply == LookupR(Direct)
  {
    ReachableInv(run, i);
    DirectHeld(run[i], o);
    DirectPersists(run, i, j, run[i].event.id, run[i].event.generation, o.ip.u, o.expiresAt);
    ReachableInv(run, j);
    HeldIsAnswered(run[j], run[i].event.generation, Direct, o.expiresAt);
  }

  // ---- quarantine ends -----------------------------------------------------

  /** The deadline of a new quarantine is that of something discarded, no later. */
  lemma QuarantineEndsWithEvidence(c: Cache, id: nat, generation: string, batch: seq<Observation>, now: nat, c': Cache)
    requires Inv(c) && Reaches(c, id, generation, batch, now)
    requires ObserveStep(c, id, generation, batch, now, c', CapacityExceeded)
    ensures c'.HasHandle(id)
    ensures var t := c'.View(id).unknownUntil;
            || (exists k :: k in c.View(id).entries && c.View(id).entries[k].expiresAt == t)
            || (exists o :: o in batch && o.expiresAt == t)
  {
    QuarantineIsExact(c, id, generation, batch, now, c', CapacityExceeded);
    FoldPicksWinners(batch);
    var folded := Fold(batch);
    var t := Latest(c.View(id).unknownUntil, Deadlines(c.View(id).entries) + FoldedDeadlines(folded));
    if t in FoldedDeadlines(folded) {
      var k :| k in folded && folded[k].expiresAt == t;
      assert Wins(batch, folded[k]);
    }
  }

  /** While a quarantine runs, a batch is answered with it, and puts its deadline at the
      latest of the old one and those of the Proxies of the batch. */
  lemma ExtensionIsExact(c: Cache, id: nat, generation: string, batch: seq<Observation>, now: nat, c': Cache, r: Outcome)
    requires Inv(c) && c.HasHandle(id) && !c.View(id).retired && generation != "" && generation == c.generation
    requires batch != [] && ValidBatch(batch, now, c.cfg.maxTTL) && now < c.View(id).unknownUntil
    requires ObserveStep(c, id, generation, batch, now, c', r)
    ensures r == CapacityExceeded && c'.HasHandle(id) && c'.View(id).entries == map[]
    ensures var was, t := c.View(id).unknownUntil, c'.View(id).unknownUntil;
            && t >= was && (forall o :: o in batch && o.decision == Proxy ==> t >= o.expiresAt)
            && (t == was || exists o :: o in batch && o.decision == Proxy && o.expiresAt == t)
  {
    assert HandleInv(c, id);
    var folded := Fold(batch);
    FoldPicksWinners(batch);
    forall o | o in batch && o.decision == Proxy ensures Latest(c.View(id).unknownUntil, ProxyDeadlines(folded)) >= o.expiresAt {
      assert Wins(batch, folded[o.ip.u]);
      assert folded[o.ip.u].expiresAt in ProxyDeadlines(folded);
    }
    var t := c'.View(id).unknownUntil;
    if t in ProxyDeadlines(folded) {
      var k :| k in folded && folded[k].decision == Proxy && folded[k].expiresAt == t;
      assert Wins(batch, folded[k]);
    }
  }

  // ---- sweeping gives back -------------------------------------------------

  /** After a sweep no session holds an expired entry or a quarantine that is over, the
      others are as they were, and the total is what is left. */
  lemma SweepLeavesTheLiving(c: Cache, t: nat, id: nat)
    requires Inv(c) && c.HasHandle(id) && !c.View(id).retired
    ensures var c' := SweepStep(c, t);
            && c'.HasHandle(id) && c'.total == Count(c'.handles)
            && (forall k :: k in c'.View(id).entries <==> k in c.View(id).entries && c.View(id).entries[k].expiresAt > t)
            && (forall k :: k in c'.View(id).entries ==> c'.View(id).entries[k] == c.View(id).entries[k])
            && c'.View(id).unknownUntil == (if c.View(id).unknownUntil > t then c.View(id).unknownUntil else 0)
  {
    assert HandleInv(c, id);
  }

  // ---- opening -------------------------------------------------------------

  /** The sessions that are not retired. */
  function Unretired(c: Cache): set<nat> { set id | 0 <= id < |c.handles| && !c.handles[id].view.retired }

  lemma {:induction false} ImageSize(m: map<Scope, nat>)
    requires forall a, b :: a in m && b in m && m[a] == m[b] ==> a == b
    ensures |m.Values| == |m|
    decreases |m|
  {
    if m != map[] {
      assert m.Keys != {} by { assert m.Keys == {} ==> m == map[]; }
      var k := Pick(m.Keys);
      var rest := m - {k};
      assert rest.Keys == m.Keys - {k} && |rest.Keys| == |rest| && |m.Keys| == |m|;
      ImageSize(rest);
      assert m.Values == rest.Values + {m[k]} by {
        forall v | v in m.Values ensures v in rest.Values + {m[k]} {
          var s :| s in m && m[s] == v;
          if s != k { assert s in rest && rest[s] == v; }
        }
      }
      assert m[k] !in rest.Values;
    }
  }

  lemma OpenSessionsAreUnretired(c: Cache)
    requires Inv(c)
    ensures |Unretired(c)| == |c.sessions|
  {
    forall id | id in Unretired(c) ensures id in c.sessions.Values {
      assert HandleInv(c, id);
      assert c.sessions[c.handles[id].scope] == id;
    }
    forall id | id in c.sessions.Values ensures id in Unretired(c) {
      var scope :| scope in c.sessions && c.sessions[scope] == id;
      assert HandleInv(c, id);
    }
    assert c.sessions.Values == Unretired(c);
    ImageSize(c.sessions);
  }

  /** A scope with a name is opened exactly when an unretired session has it or fewer than
      the maximum are unretired; the session is one of that scope, and a new one has
      learned nothing and may learn at once. */
  lemma OpenSucceedsIff(c: Cache, scope: Scope, c': Cache, r: OpenReply)
    requires Inv(c) && OpenStep(c, scope, c', r)
    ensures r.Opened? <==> scope.sessionId != ""
                           && ((exists id :: id in Unretired(c) && c.handles[id].scope == scope)
                               || |Unretired(c)| < c.cfg.maxSessions)
    ensures r.Opened? ==> r.id in Unretired(c') && c'.handles[r.id].scope == scope
    ensures r.Opened? && r.id !in Unretired(c) ==> c'.View(r.id) == RouteView.View(map[], c.generation, 0, false)
    ensures !r.Opened? ==> c' == c
  {
    OpenInv(c, scope, c', r);
    OpenSessionsAreUnretired(c);
    if scope in c.sessions {
      var id := c.sessions[scope];
      assert HandleInv(c, id);
      assert id in Unretired(c);
    } else {
      forall id | id in Unretired(c) ensures c.handles[id].scope != scope { assert HandleInv(c, id); }
    }
    if r.Opened? { assert HandleInv(c', r.id); }
  }
}
