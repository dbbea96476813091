/** internal/policy/sync.go: one update cycle and the recovery at startup, proved
    against the specification `Prepare`, `Updated` and `Started`. */
module Sync {
  import opened Options
  import opened Netip
  import opened Sets
  import opened Instants
  import opened Domain
  import opened Snapshots
  import opened Store
  import Decimal
  import Ipv4

  datatype SyncConfig = SyncConfig(sources: seq<Source>, forceShrink: bool)

  /** What NewSyncer demands of the source list. */
  predicate Configured(cfg: SyncConfig) { 1 <= |cfg.sources| <= 4 }

  datatype CachedSource = CachedSource(meta: SourceMeta, rules: ParsedRules)

  /** One HTTP exchange: it fails, or it answers; `body` is what the parser makes of
      the body, None if it rejects it. */
  datatype Fetch = FetchFails | Response(notModified: bool, etag: string, lastModified: string, body: Option<ParsedRules>)

  /** The first exchange with a source and, if it comes to that, the unconditional one. */
  datatype Answer = Answer(first: Fetch, fallback: Fetch)

  /** What the process holds in memory. */
  datatype Volatile = Volatile(
    current: Option<Snapshot>,
    cachedGen: Option<Generation>,
    cachedSources: map<string, CachedSource>)

  const EMPTY_VOLATILE := Volatile(None, None, map[])

  datatype UpdateError = SourceFailed | ZeroRules | ShrinkGuard | CommitFailed

  datatype UpdateResult = Published(version: U64, generationID: string) | Failed(error: UpdateError) | InProgress

  datatype Status = Status(ready: bool, version: int, generationID: string, lastSyncTime: Time,
                           lastSuccess: Time, lastError: Option<UpdateError>, domainCount: nat, cidrCount: nat)

  // ---- one source ----------------------------------------------------------

  function Validators(v: Volatile, src: Source): (string, string) {
    if src.id in v.cachedSources && v.cachedSources[src.id].meta.url == src.url then
      (v.cachedSources[src.id].meta.etag, v.cachedSources[src.id].meta.lastModified)
    else if v.cachedGen.Some? && src.id in v.cachedGen.value.sourcesMeta
            && v.cachedGen.value.sourcesMeta[src.id].url == src.url then
      (v.cachedGen.value.sourcesMeta[src.id].etag, v.cachedGen.value.sourcesMeta[src.id].lastModified)
    else ("", "")
  }

  /** The exchange that counts, and the rules it yields: a 304 reuses the rules of this
      process, and asks again without conditions when there are none. */
  function Settled(v: Volatile, src: Source, a: Answer): (Fetch, Option<ParsedRules>) {
    if a.first.FetchFails? then (a.first, None)
    else if a.first.notModified && src.id in v.cachedSources then (a.first, Some(v.cachedSources[src.id].rules))
    else if a.first.notModified then
      (a.fallback, if a.fallback.FetchFails? then None else a.fallback.body)
    else (a.first, a.first.body)
  }

  function MetaOf(src: Source, response: Fetch, validators: (string, string), rules: ParsedRules, start: Time): SourceMeta
    requires response.Response?
  {
    SourceMeta(src.id, src.url,
      if response.notModified && response.etag == "" then validators.0 else response.etag,
      if response.notModified && response.lastModified == "" then validators.1 else response.lastModified,
      start, |rules.domains| + |rules.cidrs|)
  }

  function SyncOne(v: Volatile, src: Source, a: Answer, start: Time): Option<CachedSource> {
    var (response, rules) := Settled(v, src, a);
    if response.FetchFails? || rules.None? then None
    else Some(CachedSource(MetaOf(src, response, Validators(v, src), rules.value, start), rules.value))
  }

  // ---- all sources ---------------------------------------------------------

  /** The first k sources, in order; None as soon as one fails. */
  function SyncFirst(v: Volatile, sources: seq<Source>, answers: seq<Answer>, start: Time, k: nat): (r: Option<seq<CachedSource>>)
    requires k <= |sources| == |answers|
    ensures r.Some? ==> |r.value| == k
  {
    if k == 0 then Some([])
    else
      var init := SyncFirst(v, sources, answers, start, k - 1);
      var last := SyncOne(v, sources[k - 1], answers[k - 1], start);
      if init.None? || last.None? then None else Some(init.value + [last.value])
  }

  lemma {:induction false} FailureStays(v: Volatile, sources: seq<Source>, answers: seq<Answer>, start: Time, k: nat, n: nat)
    requires k <= n <= |sources| == |answers|
    requires SyncFirst(v, sources, answers, start, k).None?
    ensures SyncFirst(v, sources, answers, start, n).None?
  {
    if k < n { FailureStays(v, sources, answers, start, k, n - 1); }
  }

  function RulesOf(sources: seq<Source>, cached: seq<CachedSource>): seq<SourceRules>
    requires |sources| == |cached|
  {
    seq(|cached|, i requires 0 <= i < |cached| => SourceRules(sources[i].id, cached[i].rules))
  }

  /** The map by identifier; of two sources with one identifier the later stays. */
  function ByID(sources: seq<Source>, cached: seq<CachedSource>): map<string, CachedSource>
    requires |sources| == |cached|
  {
    if cached == [] then map[]
    else ByID(sources[..|cached| - 1], cached[..|cached| - 1])[sources[|cached| - 1].id := cached[|cached| - 1]]
  }

  lemma ByIDOneMore(sources: seq<Source>, i: nat, list: seq<CachedSource>, one: CachedSource)
    requires i < |sources| && |list| == i
    ensures ByID(sources[..i + 1], list + [one]) == ByID(sources[..i], list)[sources[i].id := one]
  {
    assert (list + [one])[..i] == list && sources[..i + 1][..i] == sources[..i];
  }

  function TotalRules(rules: seq<SourceRules>): nat {
    |MergedDomains(rules)| + |DistinctCIDRs(rules)|
  }

  function RuleCount(current: Option<Snapshot>): nat {
    if current.Some? then current.value.domainCount + current.value.cidrCount else 0
  }

  /** The shrink guard: fewer than half of the rules in force. */
  predicate ShrinkRefused(cfg: SyncConfig, current: Option<Snapshot>, total: nat) {
    RuleCount(current) > 0 && !cfg.forceShrink && total < RuleCount(current) / 2
  }

  /** The version counter is a 64-bit word. */
  function VersionAfter(v: Volatile): U64 {
    if v.cachedGen.Some? then (v.cachedGen.value.version + 1) % TWO64
    else if v.current.Some? then (v.current.value.version + 1) % TWO64
    else 1
  }

  function GenerationID(version: U64, start: Time): (id: string)
    ensures id != ""
  {
    "gen-" + Decimal.Format(version) + (if start < 0 then "--" + Decimal.Format(-start) else "-" + Decimal.Format(start))
  }

  function MetaMap(cached: map<string, CachedSource>): map<string, SourceMeta> {
    map id | id in cached :: cached[id].meta
  }

  datatype Prepared = Refused(error: UpdateError)
                    | Candidate(gen: Generation, rules: seq<SourceRules>, cached: map<string, CachedSource>)

  function CandidateGeneration(cfg: SyncConfig, version: U64, rules: seq<SourceRules>,
                               cached: map<string, CachedSource>, start: Time): Generation {
    Generation(SCHEMA_VERSION, GenerationID(version, start), version, start, cfg.sources, MetaMap(cached),
               MergedDomains(rules), Texts(DistinctCIDRs(rules)),
               |MergedDomains(rules)|, |DistinctCIDRs(rules)|, NoDigest)
  }

  /** Everything an update decides before it touches the store. */
  function Prepare(cfg: SyncConfig, v: Volatile, answers: seq<Answer>, start: Time): Prepared
    requires |answers| == |cfg.sources|
  {
    var all := SyncFirst(v, cfg.sources, answers, start, |cfg.sources|);
    if all.None? then Refused(SourceFailed)
    else
      var rules := RulesOf(cfg.sources, all.value);
      if TotalRules(rules) == 0 then Refused(ZeroRules)
      else if ShrinkRefused(cfg, v.current, TotalRules(rules)) then Refused(ShrinkGuard)
      else
        var cached := ByID(cfg.sources, all.value);
        Candidate(CandidateGeneration(cfg, VersionAfter(v), rules, cached, start), rules, cached)
  }

  /** One whole update. A refused or failed one leaves store and memory as they were; a
      successful one commits first, and publishes what it committed. */
  ghost predicate Updated(cfg: SyncConfig, v: Volatile, file: Option<Generation>, answers: seq<Answer>,
                          outcome: WriteOutcome, start: Time, now: Time,
                          v': Volatile, file': Option<Generation>, r: UpdateResult)
    requires |answers| == |cfg.sources|
  {
    match Prepare(cfg, v, answers, start)
    case Refused(error) => v' == v && file' == file && r == Failed(error)
    case Candidate(gen, rules, cached) =>
      if outcome == WriteFails then v' == v && file' == file && r == Failed(CommitFailed)
      else
        && r == Published(gen.version, gen.generationID)
        && file' == Some(Sealed(gen))
        && v'.cachedGen == Some(Sealed(gen)) && v'.cachedSources == cached
        && v'.current.Some? && Compiled(v'.current.value, gen.version, gen.generationID, rules, now)
  }

  /** What recovery accepts from the store. */
  predicate Recoverable(cfg: SyncConfig, gen: Generation) {
    && Loadable(gen) && gen.configHash == cfg.sources && Parsable(gen)
    && (|gen.domains| > 0 || |gen.cidrs| > 0)
  }

  /** The memory of a process that has just started. */
  ghost predicate Started(cfg: SyncConfig, file: Option<Generation>, readable: bool, v: Volatile) {
    if readable && file.Some? && Recoverable(cfg, file.value) then
      && v.current.Some? && Restored(v.current.value, file.value)
      && v.cachedGen == file && v.cachedSources == map[]
    else
      v == EMPTY_VOLATILE
  }

  // ---- the syncer ----------------------------------------------------------

  method AggregateCandidateRules(list: seq<SourceRules>)
    returns (domains: Domains, cidrs: seq<PrefixText>, total: nat)
    ensures domains == MergedDomains(list) && cidrs == Texts(DistinctCIDRs(list)) && total == TotalRules(list)
  {
    domains := map[];
    cidrs := [];
    var seen: set<Prefix> := {};
    ghost var all: seq<Prefix> := [];
    for i := 0 to |list|
      invariant domains == MergedDomains(list[..i])
      invariant all == DistinctCIDRs(list[..i]) && cidrs == Texts(all)
      invariant seen == set p | p in all
    {
      assert list[..i + 1][..i] == list[..i];
      domains := OrInto(domains, list[i].rules.domains);
      cidrs, seen, all := AppendTexts(cidrs, seen, all, list[i].rules.cidrs);
    }
    assert list[..|list|] == list;
    total := |domains| + |cidrs|;
  }

  /** The inner loop over the prefixes of one source, keeping their texts. */
  method AppendTexts(cidrs: seq<PrefixText>, seen: set<Prefix>, ghost all: seq<Prefix>, more: seq<Prefix>)
    returns (cidrs': seq<PrefixText>, seen': set<Prefix>, ghost all': seq<Prefix>)
    requires cidrs == Texts(all) && seen == set p | p in all
    ensures all' == AddDistinct(all, more) && cidrs' == Texts(all') && seen' == set p | p in all'
  {
    cidrs', seen', all' := cidrs, seen, all;
    for i := 0 to |more|
      invariant all' == AddDistinct(all, more[..i]) && cidrs' == Texts(all')
      invariant seen' == set p | p in all'
    {
      assert more[..i + 1][..i] == more[..i];
      var canon := more[i].Masked();
      if canon !in seen' {
        seen' := seen' + {canon};
        cidrs' := cidrs' + [PrefixString(canon)];
        all' := all' + [canon];
      }
    }
    assert more[..|more|] == more;
  }

  class Syncer {
    const cfg: SyncConfig
    const matcher: Matcher
    const store: FileStore
    var cachedGen: Option<Generation>
    var cachedSources: map<string, CachedSource>
    var status: Status
    var active: bool

    constructor (cfg: SyncConfig, matcher: Matcher, store: FileStore)
      requires Configured(cfg)
      ensures this.cfg == cfg && this.matcher == matcher && this.store == store && !active
      ensures cachedGen == None && cachedSources == map[]
    {
      this.cfg, this.matcher, this.store := cfg, matcher, store;
      cachedGen, cachedSources, active := None, map[], false;
      status := Status(false, 0, "", 0, 0, None, 0, 0);
    }

    ghost function Memory(): Volatile
      reads this, matcher
    {
      Volatile(matcher.current, cachedGen, cachedSources)
    }

    method GetConditionalValidators(src: Source) returns (etag: string, lastModified: string)
      ensures (etag, lastModified) == Validators(Memory(), src)
    {
      if src.id in cachedSources {
        var cached := cachedSources[src.id];
        if cached.meta.url == src.url {
          return cached.meta.etag, cached.meta.lastModified;
        }
      }
      if cachedGen.Some? {
        if src.id in cachedGen.value.sourcesMeta {
          var meta := cachedGen.value.sourcesMeta[src.id];
          if meta.url == src.url {
            return meta.etag, meta.lastModified;
          }
        }
      }
      return "", "";
    }

    method SyncSingleSource(src: Source, a: Answer, start: Time) returns (r: Option<CachedSource>)
      ensures r == SyncOne(Memory(), src, a, start)
    {
      var ifNoneMatch, ifModifiedSince := GetConditionalValidators(src);
      var res := a.first;
      if res.FetchFails? {
        return None;
      }
      var rules: ParsedRules;
      if res.notModified {
        if src.id !in cachedSources {
          res := a.fallback;
          if res.FetchFails? {
            return None;
          }
          if res.body.None? {
            return None;
          }
          rules := res.body.value;
        } else {
          rules := cachedSources[src.id].rules;
        }
      } else {
        if res.body.None? {
          return None;
        }
        rules := res.body.value;
      }
      var etag, lastMod := res.etag, res.lastModified;
      if res.notModified {
        if etag == "" {
          etag := ifNoneMatch;
        }
        if lastMod == "" {
          lastMod := ifModifiedSince;
        }
      }
      var meta := SourceMeta(src.id, src.url, etag, lastMod, start, |rules.domains| + |rules.cidrs|);
      return Some(CachedSource(meta, rules));
    }

    method CheckShrink(total: nat) returns (refused: bool)
      ensures refused <==> ShrinkRefused(cfg, matcher.current, total)
    {
      refused := false;
      if matcher.current.Some? {
        var snap := matcher.current.value;
        var prevRules := snap.domainCount + snap.cidrCount;
        if prevRules > 0 && !cfg.forceShrink && total < prevRules / 2 {
          refused := true;
        }
      }
    }

    method RecordFailure(error: UpdateError, syncTime: Time)
      modifies this`status
      ensures status == old(status).(lastSyncTime := syncTime, lastError := Some(error))
    {
      status := status.(lastSyncTime := syncTime);
      status := status.(lastError := Some(error));
    }

    /** The loop over the sources; stops at the first failure. */
    method SyncSources(answers: seq<Answer>, start: Time) returns (all: Option<seq<CachedSource>>, cached: map<string, CachedSource>)
      requires |answers| == |cfg.sources|
      ensures all == SyncFirst(Memory(), cfg.sources, answers, start, |cfg.sources|)
      ensures all.Some? ==> cached == ByID(cfg.sources, all.value)
    {
      var list: seq<CachedSource> := [];
      cached := map[];
      for i := 0 to |cfg.sources|
        invariant |list| == i
        invariant Some(list) == SyncFirst(Memory(), cfg.sources, answers, start, i)
        invariant cached == ByID(cfg.sources[..i], list)
      {
        var src := cfg.sources[i];
        var one := SyncSingleSource(src, answers[i], start);
        if one.None? {
          FailureStays(Memory(), cfg.sources, answers, start, i + 1, |cfg.sources|);
          return None, cached;
        }
        ByIDOneMore(cfg.sources, i, list, one.value);
        cached := cached[src.id := one.value];
        list := list + [one.value];
      }
      assert cfg.sources[..|cfg.sources|] == cfg.sources;
      all := Some(list);
    }

    method NextVersion() returns (version: U64)
      ensures version == VersionAfter(Memory())
    {
      if cachedGen.Some? {
        return (cachedGen.value.version + 1) % TWO64;
      }
      if matcher.current.Some? {
        return (matcher.current.value.version + 1) % TWO64;
      }
      return 1;
    }

    /** executeUpdate up to the commit: nothing but the answers has been touched. */
    method BuildCandidate(answers: seq<Answer>, start: Time) returns (p: Prepared)
      requires |answers| == |cfg.sources|
      ensures p == Prepare(cfg, Memory(), answers, start)
    {
      var all, newCached := SyncSources(answers, start);
      if all.None? {
        return Refused(SourceFailed);
      }
      var list := RulesOf(cfg.sources, all.value);
      var domains, cidrs, total := AggregateCandidateRules(list);
      if total == 0 {
        return Refused(ZeroRules);
      }
      var refused := CheckShrink(total);
      if refused {
        return Refused(ShrinkGuard);
      }
      var version := NextVersion();
      var gen := Generation(SCHEMA_VERSION, GenerationID(version, start), version, start, cfg.sources,
                            MetaMap(newCached), domains, cidrs, |domains|, |cidrs|, NoDigest);
      return Candidate(gen, list, newCached);
    }

    /** The durable commit, and publication only if it succeeded. */
    method CommitAndPublish(p: Prepared, outcome: WriteOutcome, start: Time, now: Time) returns (r: UpdateResult)
      requires p.Candidate? && p.rules != [] && p.gen.schemaVersion == SCHEMA_VERSION
      modifies this`cachedGen, this`cachedSources, this`status, matcher, store
      ensures outcome == WriteFails ==>
        && r == Failed(CommitFailed) && Memory() == old(Memory()) && store.file == old(store.file)
        && status == old(status).(lastSyncTime := start, lastError := Some(CommitFailed))
      ensures outcome == Renamed ==>
        && r == Published(p.gen.version, p.gen.generationID)
        && store.file == Some(Sealed(p.gen))
        && cachedGen == Some(Sealed(p.gen)) && cachedSources == p.cached
        && matcher.current.Some?
        && Compiled(matcher.current.value, p.gen.version, p.gen.generationID, p.rules, now)
        && status == Status(true, r.version, r.generationID, start, start, None,
                            matcher.current.value.domainCount, matcher.current.value.cidrCount)
    {
      var ok, sealed := store.Commit(p.gen, outcome);
      if !ok {
        RecordFailure(CommitFailed, start);
        return Failed(CommitFailed);
      }
      var snap := CompileSnapshot(p.gen.version, p.gen.generationID, p.rules, now);
      matcher.Publish(snap.value);
      cachedGen := Some(sealed);
      cachedSources := p.cached;
      status := Status(true, p.gen.version, p.gen.generationID, start, start, None,
                       snap.value.domainCount, snap.value.cidrCount);
      return Published(p.gen.version, p.gen.generationID);
    }

    method ExecuteUpdate(answers: seq<Answer>, outcome: WriteOutcome, start: Time, now: Time) returns (r: UpdateResult)
      requires |answers| == |cfg.sources| && Configured(cfg)
      modifies this, matcher, store
      ensures active == old(active)
      ensures old(active) ==> r == InProgress && Memory() == old(Memory()) && store.file == old(store.file)
                              && status == old(status)
      ensures !old(active) ==> Updated(cfg, old(Memory()), old(store.file), answers, outcome, start, now,
                                       Memory(), store.file, r)
      ensures r.Failed? ==> status == old(status).(lastSyncTime := start, lastError := Some(r.error))
      ensures r.Published? ==> matcher.current.Some? && status == Status(true, r.version, r.generationID, start, start, None,
                                 matcher.current.value.domainCount, matcher.current.value.cidrCount)
    {
      if active {
        return InProgress;
      }
      active := true;
      var p := BuildCandidate(answers, start);
      if p.Refused? {
        RecordFailure(p.error, start);
        r := Failed(p.error);
      } else {
        r := CommitAndPublish(p, outcome, start, now);
      }
      active := false;
    }

    /** The recovery at the head of Run. */
    method Recover(readable: bool)
      requires Memory() == EMPTY_VOLATILE
      modifies this, matcher
      ensures Started(cfg, store.file, readable, Memory())
      ensures matcher.current.Some? ==>
        && status.ready && status.version == matcher.current.value.version
        && status.generationID == matcher.current.value.generationID
    {
      var gen := store.Load(readable);
      if gen.Some? {
        if gen.value.configHash == cfg.sources {
          var snap := GenerationToSnapshot(gen.value);
          if snap.Some? && (snap.value.domainCount > 0 || snap.value.cidrCount > 0) {
            matcher.Publish(snap.value);
            cachedGen := gen;
            status := status.(ready := true, version := gen.value.version, generationID := gen.value.generationID,
                              lastSuccess := gen.value.createdAt, domainCount := snap.value.domainCount,
                              cidrCount := snap.value.cidrCount);
          }
        }
      }
    }
  }
}
