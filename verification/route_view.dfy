/** internal/policy/route_cache.go, one session at a time: what a published view
    answers, and how a batch of observations changes its entries. */
module RouteView {
  import opened Options
  import opened Netip
  import opened Instants

  datatype Decision = Unknown | Direct | Proxy

  datatype Observation = Observation(ip: Addr, decision: Decision, expiresAt: Time)

  datatype Entry = Entry(decision: Decision, expiresAt: Time)

  type Entries = map<U32, Entry>

  datatype View = View(entries: Entries, generation: string, unknownUntil: Time, retired: bool)

  predicate Quarantined(v: View, now: Time) {
    v.unknownUntil != 0 && now < v.unknownUntil
  }

  function LookupView(v: View, ip: Addr, generation: string, now: Time): Decision {
    if v.retired then Unknown
    else if v.generation == "" || v.generation != generation then Unknown
    else if Quarantined(v, now) then Unknown
    else if !ip.V4? || ip.u !in v.entries then Unknown
    else if now >= v.entries[ip.u].expiresAt then Unknown
    else v.entries[ip.u].decision
  }

  // ---- validateBatch -------------------------------------------------------

  function Quad(a: nat, b: nat, c: nat, d: nat): U32
    requires a < 256 && b < 256 && c < 256 && d < 256
  {
    ((a * 256 + b) * 256 + c) * 256 + d
  }

  /** The refused networks of fetch_address.go. */
  const DENIED: seq<Prefix> := [
    Prefix(V4(Quad(0, 0, 0, 0)), 8), Prefix(V4(Quad(10, 0, 0, 0)), 8),
    Prefix(V4(Quad(100, 64, 0, 0)), 10), Prefix(V4(Quad(127, 0, 0, 0)), 8),
    Prefix(V4(Quad(169, 254, 0, 0)), 16), Prefix(V4(Quad(172, 16, 0, 0)), 12),
    Prefix(V4(Quad(192, 0, 0, 0)), 24), Prefix(V4(Quad(192, 0, 2, 0)), 24),
    Prefix(V4(Quad(192, 88, 99, 0)), 24), Prefix(V4(Quad(192, 168, 0, 0)), 16),
    Prefix(V4(Quad(198, 18, 0, 0)), 15), Prefix(V4(Quad(198, 51, 100, 0)), 24),
    Prefix(V4(Quad(203, 0, 113, 0)), 24), Prefix(V4(Quad(224, 0, 0, 0)), 4),
    Prefix(V4(Quad(240, 0, 0, 0)), 4), Prefix(V4(Quad(168, 63, 129, 16)), 32)
  ]

  /** Unspecified, loopback, multicast or link-local. */
  predicate SpecialUse(a: U32) {
    a == 0 || a / 0x100_0000 == 127 || a / 0x1000_0000 == 14 || a / 0x1_0000 == 0xA9FE
  }

  predicate FetchAllowed(a: U32) {
    !SpecialUse(a) && forall p :: p in DENIED ==> !p.Covers(a)
  }

  predicate ValidObservation(o: Observation, now: Time, maxTTL: nat) {
    && o.decision != Unknown
    && o.ip.V4? && FetchAllowed(o.ip.u)
    && (o.expiresAt > now || o.decision == Proxy)
    && o.expiresAt <= now + maxTTL
  }

  predicate ValidBatch(batch: seq<Observation>, now: Time, maxTTL: nat) {
    forall o :: o in batch ==> ValidObservation(o, now, maxTTL)
  }

  /** What folding and merging rely on: IPv4 addresses and real decisions. */
  predicate Decided(batch: seq<Observation>) {
    forall o :: o in batch ==> o.ip.V4? && o.decision != Unknown
  }

  // ---- foldBatch -----------------------------------------------------------

  type Folded = map<U32, Observation>

  /** Of two observations of one address, the one foldBatch keeps. */
  function Keep(existing: Observation, o: Observation): Observation {
    if existing.decision == Direct && o.decision == Proxy then o
    else if existing.decision == Proxy && o.decision == Direct then existing
    else if o.expiresAt > existing.expiresAt then o
    else existing
  }

  function Fold(batch: seq<Observation>): Folded
    requires Decided(batch)
  {
    if batch == [] then map[]
    else
      var m, o := Fold(batch[..|batch| - 1]), batch[|batch| - 1];
      m[o.ip.u := if o.ip.u in m then Keep(m[o.ip.u], o) else o]
  }

  /** The observation that should speak for its address: a Proxy if there is one,
      and the latest deadline among those of the winning decision. */
  ghost predicate Wins(batch: seq<Observation>, o: Observation) {
    && o in batch
    && forall p :: p in batch && p.ip == o.ip ==>
         || (o.decision == Proxy && p.decision == Direct)
         || (p.decision == o.decision && p.expiresAt <= o.expiresAt)
  }

  lemma {:induction false} FoldPicksWinners(batch: seq<Observation>)
    requires Decided(batch)
    ensures forall k :: k in Fold(batch) ==> Fold(batch)[k].ip == V4(k) && Wins(batch, Fold(batch)[k])
    ensures forall o :: o in batch ==> o.ip.u in Fold(batch)
  {
    if batch != [] {
      var init, o := batch[..|batch| - 1], batch[|batch| - 1];
      assert batch == init + [o];
      FoldPicksWinners(init);
    }
  }

  /** The fold depends only on which observations occur, not on their order or
      multiplicity. */
  lemma FoldIgnoresOrder(a: seq<Observation>, b: seq<Observation>)
    requires Decided(a) && Decided(b)
    requires forall o :: o in a <==> o in b
    ensures Fold(a) == Fold(b)
  {
    FoldPicksWinners(a);
    FoldPicksWinners(b);
    FoldKeys(a, b);
    FoldKeys(b, a);
    forall k | k in Fold(a) ensures Fold(a)[k] == Fold(b)[k] {
      assert Wins(a, Fold(a)[k]) && Wins(b, Fold(b)[k]);
    }
  }

  lemma FoldKeys(a: seq<Observation>, b: seq<Observation>)
    requires Decided(a) && Decided(b)
    requires forall o :: o in a ==> o in b
    ensures Fold(a).Keys <= Fold(b).Keys
  {
    FoldPicksWinners(a);
    FoldPicksWinners(b);
    forall k | k in Fold(a) ensures k in Fold(b) {
      assert Wins(a, Fold(a)[k]);
    }
  }

  // ---- mergeConflictResolution ---------------------------------------------

  function Get(m: Entries, k: U32): Option<Entry> {
    if k in m then Some(m[k]) else None
  }

  /** The entry of one address after an observation of it. */
  function MergeOne(existing: Option<Entry>, o: Observation, now: Time): Option<Entry> {
    match existing
    case None =>
      if o.decision == Proxy && o.expiresAt <= now then None
      else Some(Entry(o.decision, o.expiresAt))
    case Some(e) =>
      if e.decision == Direct && o.decision == Direct then
        Some(Entry(Direct, MaxTime(e.expiresAt, o.expiresAt)))
      else if e.decision == Direct && o.decision == Proxy then
        if o.expiresAt <= now then None else Some(Entry(Proxy, o.expiresAt))
      else if e.decision == Proxy && o.decision == Proxy then
        Some(Entry(Proxy, MaxTime(e.expiresAt, o.expiresAt)))
      else existing
  }

  function MergedAt(entries: Entries, folded: Folded, now: Time, k: U32): Option<Entry> {
    if k in folded then MergeOne(Get(entries, k), folded[k], now) else Get(entries, k)
  }

  function Merge(entries: Entries, folded: Folded, now: Time): Entries {
    map k | k in entries.Keys + folded.Keys && MergedAt(entries, folded, now, k).Some?
      :: MergedAt(entries, folded, now, k).value
  }

  function Prune(entries: Entries, now: Time): Entries {
    map k | k in entries && now < entries[k].expiresAt :: entries[k]
  }

  // ---- capacity ------------------------------------------------------------

  function KeysOf(m: Entries, d: Decision): set<U32> {
    set k | k in m && m[k].decision == d
  }

  ghost predicate DecidedEntries(m: Entries) {
    forall k :: k in m ==> m[k].decision != Unknown
  }

  lemma CountByDecision(m: Entries)
    requires DecidedEntries(m)
    ensures |m| == |KeysOf(m, Direct)| + |KeysOf(m, Proxy)|
  {
    var d, p := KeysOf(m, Direct), KeysOf(m, Proxy);
    assert m.Keys == d + p;
    assert |d + p| == |d| + |p| - |d * p|;
    assert d * p == {};
    assert |m.Keys| == |m|;
  }

  lemma MergeIsDecided(entries: Entries, folded: Folded, now: Time)
    requires DecidedEntries(entries)
    requires forall k :: k in folded ==> folded[k].decision != Unknown
    ensures DecidedEntries(Merge(Prune(entries, now), folded, now))
  {
  }

  /** A merge leaves only entries that are still alive, each from an old entry or
      from the batch, and its deadline is that of one of its sources. */
  lemma MergeSources(entries: Entries, folded: Folded, now: Time, k: U32)
    requires DecidedEntries(entries)
    requires forall j :: j in folded ==> folded[j].decision != Unknown
    requires forall j :: j in folded && folded[j].decision == Direct ==> folded[j].expiresAt > now
    requires k in Merge(Prune(entries, now), folded, now)
    ensures var e := Merge(Prune(entries, now), folded, now)[k];
            && e.expiresAt > now
            && (|| (k in entries && e == entries[k])
                || (k in folded && e == Entry(folded[k].decision, folded[k].expiresAt)))
  {
  }

  /** A Proxy entry that is still alive survives any merge, with a deadline no
      earlier; a live Proxy observation is in the merge from then on. */
  lemma MergeKeepsProxy(entries: Entries, folded: Folded, now: Time, k: U32, d: Time)
    requires d > now
    requires forall j :: j in folded ==> folded[j].decision != Unknown
    requires DecidedEntries(entries)
    requires || (k in entries && entries[k].decision == Proxy && entries[k].expiresAt >= d)
             || (k in folded && folded[k].decision == Proxy && folded[k].expiresAt >= d)
    ensures var m := Merge(Prune(entries, now), folded, now);
            k in m && m[k].decision == Proxy && m[k].expiresAt >= d
  {
  }

  ghost function Deadlines(entries: Entries): set<Time> {
    set k | k in entries :: entries[k].expiresAt
  }

  ghost function FoldedDeadlines(folded: Folded): set<Time> {
    set k | k in folded :: folded[k].expiresAt
  }

  ghost function ProxyDeadlines(folded: Folded): set<Time> {
    set k | k in folded && folded[k].decision == Proxy :: folded[k].expiresAt
  }

  // ---- Sweep, one view -----------------------------------------------------

  function SweepView(v: View, now: Time): View {
    v.(entries := Prune(v.entries, now),
       unknownUntil := if v.unknownUntil != 0 && now >= v.unknownUntil then 0 else v.unknownUntil)
  }

  /** Sweeping a view changes no answer from the sweep's instant on. Only a
      quarantined view without entries may lose its deadline unnoticed. */
  lemma SweepViewUnobservable(v: View, t: Time, ip: Addr, generation: string, now: Time)
    requires v.unknownUntil != 0 ==> v.entries == map[]
    requires now >= t
    ensures LookupView(SweepView(v, t), ip, generation, now) == LookupView(v, ip, generation, now)
  {
  }
}
