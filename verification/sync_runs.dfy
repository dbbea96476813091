/** Whole lives of the syncer: processes start, recover, update, and may crash between
    any two steps of an update; the durable file outlives them. */
module SyncRuns {
  import opened Options
  import opened Netip
  import opened Instants
  import opened Snapshots
  import opened Store
  import opened Sync
  import Ipv4

  /** The file, and the memory of the process if one is up. */
  datatype World = World(file: Option<Generation>, live: Option<Volatile>)

  datatype Event =
    | Start(readable: bool)
    | Update(answers: seq<Answer>, outcome: WriteOutcome, start: Time, now: Time, result: UpdateResult)
    | Crash
    | CrashInUpdate(answers: seq<Answer>, start: Time, renamed: bool)

  /** Each step under the configuration of its process. */
  datatype Move = Move(cfg: SyncConfig, pre: World, event: Event, post: World)

  ghost predicate Took(m: Move) {
    var cfg := m.cfg;
    match m.event
    case Start(readable) =>
      && m.pre.live.None? && m.post.file == m.pre.file
      && m.post.live.Some? && Started(cfg, m.pre.file, readable, m.post.live.value)
    case Update(answers, outcome, start, now, result) =>
      && m.pre.live.Some? && m.post.live.Some? && |answers| == |cfg.sources|
      && Updated(cfg, m.pre.live.value, m.pre.file, answers, outcome, start, now,
                 m.post.live.value, m.post.file, result)
    case Crash => m.post == World(m.pre.file, None)
    case CrashInUpdate(answers, start, renamed) =>
      && m.pre.live.Some? && m.post.live.None? && |answers| == |cfg.sources|
      && var p := Prepare(cfg, m.pre.live.value, answers, start);
         m.post.file == if p.Candidate? && renamed then Some(Sealed(p.gen)) else m.pre.file
  }

  ghost predicate IsRun(run: seq<Move>) {
    && (forall i {:trigger Took(run[i])} :: 0 <= i < |run| ==> Took(run[i]))
    && (forall i {:trigger run[i].pre} :: 0 < i < |run| ==> run[i].pre == run[i - 1].post)
    && (run != [] ==> run[0].pre == World(None, None))
  }

  /** The snapshot this move published: by a successful update, or by recovery. */
  function PublishedBy(m: Move): Option<Snapshot> {
    if m.post.live.Some? && (m.event.Start? || (m.event.Update? && m.event.result.Published?))
    then m.post.live.value.current else None
  }

  /** The move replaced the file, whether or not it got to publish. */
  predicate Commits(m: Move) {
    match m.event
    case Update(_, _, _, _, result) => result.Published?
    case CrashInUpdate(answers, start, renamed) =>
      && renamed && m.pre.live.Some? && |answers| == |m.cfg.sources|
      && Prepare(m.cfg, m.pre.live.value, answers, start).Candidate?
    case _ => false
  }

  // ---- publication follows commit ------------------------------------------

  /** The durable generation holds the rules of the snapshot in force. */
  ghost predicate Backs(gen: Generation, s: Snapshot) {
    && gen.version == s.version && gen.generationID == s.generationID
    && gen.domains == s.domains && |gen.domains| == s.domainCount && |gen.cidrs| == s.cidrCount
    && exists ps :: gen.cidrs == Texts(ps) && Ipv4.Indexes(s.ipv4, ps)
  }

  ghost predicate LiveIsBacked(w: World) {
    w.live.Some? && w.live.value.current.Some? ==>
      w.file.Some? && Backs(w.file.value, w.live.value.current.value)
  }

  lemma CandidateBacks(cfg: SyncConfig, v: Volatile, answers: seq<Answer>, start: Time, s: Snapshot, now: Time)
    requires |answers| == |cfg.sources|
    requires var p := Prepare(cfg, v, answers, start);
             p.Candidate? && Compiled(s, p.gen.version, p.gen.generationID, p.rules, now)
    ensures Backs(Sealed(Prepare(cfg, v, answers, start).gen), s)
  {
    var p := Prepare(cfg, v, answers, start);
    assert p.gen.cidrs == Texts(DistinctCIDRs(p.rules)) && Ipv4.Indexes(s.ipv4, DistinctCIDRs(p.rules));
  }

  lemma RestoredBacks(gen: Generation, s: Snapshot)
    requires Parsable(gen) && Restored(s, gen)
    requires forall i :: 0 <= i < |gen.cidrs| ==> Printed(gen.cidrs[i])
    ensures Backs(gen, s)
  {
    var ps := ParsedPrefixes(gen);
    assert forall i :: 0 <= i < |ps| ==> ParsePrefix(gen.cidrs[i]).Some? && PrefixString(ps[i]) == gen.cidrs[i];
    assert gen.cidrs == Texts(ps);
  }

  /** A text as the program writes it: printed from a masked prefix. */
  predicate Printed(t: PrefixText) {
    t.PrefixText? ==> t.prefix.IsValid() && t.prefix.Masked() == t.prefix
  }

  ghost predicate FileIsPrinted(w: World) {
    w.file.Some? ==> forall i :: 0 <= i < |w.file.value.cidrs| ==> Printed(w.file.value.cidrs[i])
  }

  lemma CandidateIsPrinted(cfg: SyncConfig, v: Volatile, answers: seq<Answer>, start: Time)
    requires |answers| == |cfg.sources| && Prepare(cfg, v, answers, start).Candidate?
    ensures var gen := Prepare(cfg, v, answers, start).gen;
            forall i :: 0 <= i < |gen.cidrs| ==> Printed(gen.cidrs[i])
  {
    var p := Prepare(cfg, v, answers, start);
    var all := DistinctCIDRs(p.rules);
    DistinctAreMasked(p.rules);
    forall i | 0 <= i < |all| ensures Printed(p.gen.cidrs[i]) {
      assert all[i] in all;
    }
  }

  lemma BackedStep(m: Move)
    requires Took(m) && LiveIsBacked(m.pre) && FileIsPrinted(m.pre)
    ensures LiveIsBacked(m.post) && FileIsPrinted(m.post)
  {
    match m.event
    case Start(readable) =>
      if m.post.live.value.current.Some? { RestoredBacks(m.pre.file.value, m.post.live.value.current.value); }
    case Update(answers, _, start, now, result) =>
      if result.Published? {
        CandidateBacks(m.cfg, m.pre.live.value, answers, start, m.post.live.value.current.value, now);
        CandidateIsPrinted(m.cfg, m.pre.live.value, answers, start);
      }
    case Crash =>
    case CrashInUpdate(answers, start, _) =>
      if Prepare(m.cfg, m.pre.live.value, answers, start).Candidate? {
        CandidateIsPrinted(m.cfg, m.pre.live.value, answers, start);
      }
  }

  /** At every point of every run the snapshot in force is the durable one: publication
      never runs ahead of the commit. No assumption on reads, rules or versions. */
  lemma {:induction false} LiveIsAlwaysDurable(run: seq<Move>, i: nat)
    requires IsRun(run) && i < |run|
    ensures LiveIsBacked(run[i].pre) && FileIsPrinted(run[i].pre)
    ensures LiveIsBacked(run[i].post) && FileIsPrinted(run[i].post)
  {
    if i > 0 { LiveIsAlwaysDurable(run, i - 1); }
    assert Took(run[i]);
    BackedStep(run[i]);
  }

  // ---- versions and recovery -----------------------------------------------

  function FileVersion(w: World): int {
    if w.file.Some? then w.file.value.version else 0
  }

  function FileRules(w: World): nat {
    if w.file.Some? then |w.file.value.domains| + |w.file.value.cidrs| else 0
  }

  /** A process is in force once it has published or recovered something. */
  predicate InForce(w: World) { w.live.Some? && w.live.value.current.Some? }

  /** What is in force agrees with the file, and what is not has no generation at all. */
  ghost predicate Agrees(w: World) {
    w.live.Some? ==>
      && (w.live.value.current.Some? <==> w.live.value.cachedGen.Some?)
      && (w.live.value.current.Some? ==>
            && w.file.Some? && w.live.value.cachedGen == w.file
            && w.live.value.current.value.version == FileVersion(w)
            && RuleCount(w.live.value.current) == FileRules(w))
  }

  /** The file is one that the program wrote, with some rules and no version 0. */
  predicate Proper(w: World) {
    w.file.Some? ==>
      && w.file.value.schemaVersion == SCHEMA_VERSION && w.file.value.generationID != "" && w.file.value.version > 0
      && w.file.value.contentHash == ComputeContentHash(w.file.value.domains, w.file.value.cidrs)
      && FileRules(w) > 0
  }

  /** Such a file is recovered exactly under the configuration that wrote it and when
      its prefixes parse. */
  lemma ProperIsRecoverableIff(cfg: SyncConfig, w: World)
    requires Proper(w) && w.file.Some?
    ensures Recoverable(cfg, w.file.value) <==> w.file.value.configHash == cfg.sources && Parsable(w.file.value)
  {
  }

  /** A start that finds a file reads it, under the configuration that wrote it, and can
      parse its prefixes. */
  predicate Recovers(m: Move) {
    m.event.Start? && m.pre.file.Some? ==>
      m.event.readable && m.pre.file.value.configHash == m.cfg.sources && Parsable(m.pre.file.value)
  }

  /** What every step does to the file. A commit by a process in force adds one to the
      version and obeys the shrink guard, one by any other process starts at 1, and
      nothing else changes the file. What is published is what the file holds. */
  ghost predicate FileEffect(m: Move) {
    && Agrees(m.post) && Proper(m.post)
    && (if Commits(m) then
          && m.post.file.Some?
          && FileVersion(m.post) == (if InForce(m.pre) then FileVersion(m.pre) + 1 else 1)
          && (InForce(m.pre) && !m.cfg.forceShrink ==> FileRules(m.post) >= FileRules(m.pre) / 2)
        else m.post.file == m.pre.file)
  }

  /** The file a candidate leaves. */
  lemma CandidateFile(cfg: SyncConfig, w: World, answers: seq<Answer>, start: Time)
    requires Agrees(w) && w.live.Some? && |answers| == |cfg.sources| && FileVersion(w) + 1 < TWO64
    requires Prepare(cfg, w.live.value, answers, start).Candidate?
    ensures var file := World(Some(Sealed(Prepare(cfg, w.live.value, answers, start).gen)), None);
            && Proper(file)
            && FileVersion(file) == (if InForce(w) then FileVersion(w) + 1 else 1)
            && (InForce(w) && !cfg.forceShrink ==> FileRules(file) >= FileRules(w) / 2)
  {
    CandidateSealed(cfg, w.live.value, answers, start);
  }

  lemma CandidateSealed(cfg: SyncConfig, v: Volatile, answers: seq<Answer>, start: Time)
    requires |answers| == |cfg.sources| && Prepare(cfg, v, answers, start).Candidate?
    ensures var gen := Sealed(Prepare(cfg, v, answers, start).gen);
            && gen.schemaVersion == SCHEMA_VERSION && gen.generationID != "" && gen.version == VersionAfter(v)
            && gen.contentHash == ComputeContentHash(gen.domains, gen.cidrs)
            && |gen.domains| + |gen.cidrs| > 0
            && !ShrinkRefused(cfg, v.current, |gen.domains| + |gen.cidrs|)
  {
    var p := Prepare(cfg, v, answers, start);
    assert |Texts(DistinctCIDRs(p.rules))| == |DistinctCIDRs(p.rules)|;
    assert |p.gen.domains| + |p.gen.cidrs| == TotalRules(p.rules);
  }

  lemma UpdateEffect(m: Move)
    requires Took(m) && Agrees(m.pre) && Proper(m.pre) && FileVersion(m.pre) + 1 < TWO64
    requires m.event.Update?
    ensures FileEffect(m)
  {
    if m.event.result.Published? {
      CandidateFile(m.cfg, m.pre, m.event.answers, m.event.start);
      PublishedAgrees(m);
    }
  }

  lemma PublishedAgrees(m: Move)
    requires Took(m) && m.event.Update? && m.event.result.Published?
    ensures Agrees(m.post) && InForce(m.post)
    ensures var p := Prepare(m.cfg, m.pre.live.value, m.event.answers, m.event.start);
            p.Candidate? && m.post.file == Some(Sealed(p.gen))
  {
  }

  lemma CrashEffect(m: Move)
    requires Took(m) && Agrees(m.pre) && Proper(m.pre) && FileVersion(m.pre) + 1 < TWO64
    requires m.event.CrashInUpdate?
    ensures FileEffect(m)
  {
    if Commits(m) { CandidateFile(m.cfg, m.pre, m.event.answers, m.event.start); }
  }

  lemma EveryEffect(m: Move)
    requires Took(m) && Agrees(m.pre) && Proper(m.pre) && FileVersion(m.pre) + 1 < TWO64
    ensures FileEffect(m)
  {
    match m.event
    case Start(_) =>
    case Crash =>
    case Update(_, _, _, _, _) => UpdateEffect(m);
    case CrashInUpdate(_, _, _) => CrashEffect(m);
  }

  /** Over every run too short to wrap the 64-bit counter, the file is proper and what is
      in force agrees with it, whatever is fetched, unreadable or crashes. */
  lemma {:induction false} AlwaysAgrees(run: seq<Move>, i: nat)
    requires IsRun(run) && |run| < TWO64 && i < |run|
    ensures Agrees(run[i].pre) && Proper(run[i].pre) && FileVersion(run[i].pre) <= i
    ensures FileEffect(run[i]) && FileVersion(run[i].post) <= i + 1
  {
    if i > 0 { AlwaysAgrees(run, i - 1); }
    RunMove(run, i);
    EveryEffect(run[i]);
  }

  lemma RunMove(run: seq<Move>, i: nat)
    requires IsRun(run) && i < |run|
    ensures Took(run[i]) && run[i].pre == if i == 0 then World(None, None) else run[i - 1].post
  {
  }

  /** A file that no process has lost sight of: a live process has it in force. */
  predicate Warm(w: World) { w.file.Some? && (w.live.Some? ==> InForce(w)) }

  lemma PublishedIsWarm(m: Move)
    requires Took(m) && Agrees(m.post) && PublishedBy(m).Some?
    ensures Warm(m.post) && PublishedBy(m).value.version == FileVersion(m.post)
  {
  }

  lemma PublishedAt(run: seq<Move>, i: nat)
    requires IsRun(run) && |run| < TWO64 && i < |run| && PublishedBy(run[i]).Some?
    ensures Warm(run[i].post) && PublishedBy(run[i]).value.version == FileVersion(run[i].post)
  {
    AlwaysAgrees(run, i);
    RunMove(run, i);
    PublishedIsWarm(run[i]);
  }

  lemma UpdatedAt(run: seq<Move>, j: nat)
    requires IsRun(run) && |run| < TWO64 && j < |run| && Warm(run[j].pre)
    requires run[j].event.Update? && run[j].event.result.Published?
    ensures PublishedBy(run[j]).Some? && FileVersion(run[j].post) == FileVersion(run[j].pre) + 1
  {
    AlwaysAgrees(run, j);
    RunMove(run, j);
    PublishedAgrees(run[j]);
  }

  lemma WarmStep(m: Move)
    requires Took(m) && Proper(m.pre) && FileEffect(m) && Warm(m.pre) && Recovers(m)
    ensures Warm(m.post) && FileVersion(m.pre) <= FileVersion(m.post)
  {
    if m.event.Start? { ProperIsRecoverableIff(m.cfg, m.pre); }
  }

  lemma {:induction false} StaysWarm(run: seq<Move>, i: nat, j: nat)
    requires IsRun(run) && |run| < TWO64 && i <= j < |run| && Warm(run[i].post)
    requires forall k :: i < k <= j ==> Recovers(run[k])
    ensures Warm(run[j].post) && FileVersion(run[i].post) <= FileVersion(run[j].post)
  {
    if i < j {
      StaysWarm(run, i, j - 1);
      AlwaysAgrees(run, j);
      RunMove(run, j);
      WarmStep(run[j]);
    }
  }

  /** Versions strictly increase: an update publishes a larger version than anything
      published before it, by an update or by recovery, as long as each start in
      between recovered the file it found. */
  lemma VersionsIncrease(run: seq<Move>, i: nat, j: nat)
    requires IsRun(run) && |run| < TWO64 && i < j < |run| && PublishedBy(run[i]).Some?
    requires run[j].event.Update? && run[j].event.result.Published?
    requires forall k :: i < k < j ==> Recovers(run[k])
    ensures PublishedBy(run[j]).Some? && PublishedBy(run[i]).value.version < PublishedBy(run[j]).value.version
  {
    PublishedAt(run, i);
    StaysWarm(run, i, j - 1);
    assert run[j].pre == run[j - 1].post;
    UpdatedAt(run, j);
    PublishedAt(run, j);
  }

  /** And otherwise they do not: after a start that found a file it did not recover the
      next version is 1. */
  lemma ColdStartBeginsAtOne(m: Move)
    requires Took(m) && m.event.Start? && Proper(m.pre) && !Recovers(m)
    ensures m.post.live.value == EMPTY_VOLATILE && VersionAfter(m.post.live.value) == 1 && !Warm(m.post)
  {
    ProperIsRecoverableIff(m.cfg, m.pre);
  }

  /** A restart recovers at least what was last published, whatever crashed in between. */
  lemma RestartRecovers(run: seq<Move>, i: nat, j: nat)
    requires IsRun(run) && |run| < TWO64 && i < j < |run|
    requires PublishedBy(run[i]).Some? && run[j].event.Start?
    requires forall k :: i < k <= j ==> Recovers(run[k])
    ensures PublishedBy(run[j]).Some? && PublishedBy(run[i]).value.version <= PublishedBy(run[j]).value.version
  {
    PublishedAt(run, i);
    StaysWarm(run, i, j);
    RunMove(run, j);
    PublishedAt(run, j);
  }

  // ---- the shrink guard over a run -----------------------------------------

  /** Commits among the moves i+1 .. j. */
  function CommitsUpTo(run: seq<Move>, i: nat, j: nat): nat
    requires i <= j < |run|
  {
    if i == j then 0 else CommitsUpTo(run, i, j - 1) + (if Commits(run[j]) then 1 else 0)
  }

  /** a halved n times, rounding down each time. */
  function Halved(a: nat, n: nat): nat {
    if n == 0 then a else Halved(a, n - 1) / 2
  }

  lemma {:induction false} HalvedIsQuotient(a: nat, n: nat)
    ensures Halved(a, n) == a / Pow2(n)
  {
    if n > 0 {
      HalvedIsQuotient(a, n - 1);
      QuotientTwice(a, Pow2(n - 1));
    }
  }

  lemma QuotientTwice(a: nat, m: nat)
    requires m > 0
    ensures a / m / 2 == a / (2 * m)
  {
    var q := a / m;
    var h := q / 2;
    QuotientIsBlock(a, q, m);
    MulMono(2 * h, q, m);
    MulMono(q, 2 * h + 1, m);
    assert (2 * h) * m == h * (2 * m);
    assert (2 * h + 1) * m == h * (2 * m) + m;
    QuotientIsBlock(a, h, 2 * m);
  }

  lemma {:induction false} HalvedBelow(run: seq<Move>, i: nat, j: nat)
    requires IsRun(run) && |run| < TWO64 && i <= j < |run| && Warm(run[i].post)
    requires forall k :: i < k <= j ==> Recovers(run[k]) && !run[k].cfg.forceShrink
    ensures FileRules(run[j].post) >= Halved(FileRules(run[i].post), CommitsUpTo(run, i, j))
  {
    if i < j {
      HalvedBelow(run, i, j - 1);
      StaysWarm(run, i, j - 1);
      HalvedAt(run, j - 1);
    }
  }

  lemma HalvedAt(run: seq<Move>, k: nat)
    requires IsRun(run) && |run| < TWO64 && k + 1 < |run| && Warm(run[k].post) && !run[k + 1].cfg.forceShrink
    ensures FileRules(run[k + 1].post)
            >= if Commits(run[k + 1]) then FileRules(run[k].post) / 2 else FileRules(run[k].post)
  {
    AlwaysAgrees(run, k + 1);
    RunMove(run, k + 1);
    HalvedStep(run[k + 1]);
  }

  lemma HalvedStep(m: Move)
    requires Took(m) && FileEffect(m) && Warm(m.pre) && !m.cfg.forceShrink
    ensures FileRules(m.post) >= if Commits(m) then FileRules(m.pre) / 2 else FileRules(m.pre)
  {
  }

  /** Without ForceShrink, after n further commits at least floor(c0 / 2^n) rules are
      left, and never none; a process in force holds exactly those. */
  lemma ShrinkIsBounded(run: seq<Move>, i: nat, j: nat)
    requires IsRun(run) && |run| < TWO64 && i <= j < |run| && Warm(run[i].post)
    requires forall k :: i < k <= j ==> Recovers(run[k]) && !run[k].cfg.forceShrink
    ensures run[j].post.file.Some? && FileRules(run[j].post) > 0
    ensures FileRules(run[j].post) >= FileRules(run[i].post) / Pow2(CommitsUpTo(run, i, j))
    ensures run[j].post.live.Some? ==> RuleCount(run[j].post.live.value.current) == FileRules(run[j].post)
  {
    HalvedBelow(run, i, j);
    HalvedIsQuotient(FileRules(run[i].post), CommitsUpTo(run, i, j));
    StaysWarm(run, i, j);
    AlwaysAgrees(run, j);
  }

  // ---- why the rules must be valid -----------------------------------------

  /** What a restart makes of a committed candidate, exactly: it comes back if and only
      if every prefix of every source is valid and the version has not wrapped to 0. */
  lemma RestartRecoversIff(cfg: SyncConfig, v: Volatile, answers: seq<Answer>, start: Time, after: Volatile)
    requires |answers| == |cfg.sources| && Prepare(cfg, v, answers, start).Candidate?
    requires Started(cfg, Some(Sealed(Prepare(cfg, v, answers, start).gen)), true, after)
    ensures var p := Prepare(cfg, v, answers, start);
            after.current.Some? <==> AllValid(p.rules) && p.gen.version != 0
  {
    var p := Prepare(cfg, v, answers, start);
    DurableFormParsesIff(Sealed(p.gen), p.rules);
  }

  /** The file that a step commits parses exactly when the prefixes it fetched or reused
      are valid, so Recovers is a matter of the lists that were committed. */
  lemma CommitParsesIff(m: Move)
    requires Took(m) && Commits(m)
    ensures m.post.file.Some?
    ensures Parsable(m.post.file.value)
            <==> AllValid(Prepare(m.cfg, m.pre.live.value, m.event.answers, m.event.start).rules)
  {
    var p := Prepare(m.cfg, m.pre.live.value, m.event.answers, m.event.start);
    DurableFormParsesIff(Sealed(p.gen), p.rules);
  }

  /** The rule ::ffff:1.2.3.0/120 is accepted by the parser as the zero prefix. A list
      that holds it beside a domain is committed and published, yet after a restart
      nothing is recovered and the version counter starts over at 1. */
  lemma InvalidRuleIsNotRecovered(flags: Domain.Flags, src: Source, v2: Volatile)
    requires src == Source("a", "https://a", 3, 1, false)
    requires var rules := ParsedRules(map["example.com" := flags], [NO_PREFIX]);
             var cfg := SyncConfig([src], false);
             var p := Prepare(cfg, EMPTY_VOLATILE, [Answer(Response(false, "", "", Some(rules)), FetchFails)], 7);
             p.Candidate? ==> Started(cfg, Some(Sealed(p.gen)), true, v2)
    ensures var rules := ParsedRules(map["example.com" := flags], [NO_PREFIX]);
            var cfg := SyncConfig([src], false);
            Prepare(cfg, EMPTY_VOLATILE, [Answer(Response(false, "", "", Some(rules)), FetchFails)], 7).Candidate?
    ensures v2.current == None && VersionAfter(v2) == 1
  {
    var rules := ParsedRules(map["example.com" := flags], [NO_PREFIX]);
    var cfg := SyncConfig([src], false);
    var answers := [Answer(Response(false, "", "", Some(rules)), FetchFails)];
    var one := SyncOne(EMPTY_VOLATILE, src, answers[0], 7);
    assert SyncFirst(EMPTY_VOLATILE, cfg.sources, answers, 7, 0) == Some([]);
    assert SyncFirst(EMPTY_VOLATILE, cfg.sources, answers, 7, 1) == Some([one.value]);
    var list := RulesOf(cfg.sources, [one.value]);
    assert list == [SourceRules("a", rules)];
    MergedOfOne(list[0]);
    assert TotalRules(list) > 0;
    var p := Prepare(cfg, EMPTY_VOLATILE, answers, 7);
    assert p.Candidate? && p.rules == list;
    assert list[0] in list && NO_PREFIX in list[0].rules.cidrs && !NO_PREFIX.IsValid();
    RestartRecoversIff(cfg, EMPTY_VOLATILE, answers, 7, v2);
  }

  lemma MergedOfOne(src: SourceRules)
    requires |src.rules.domains| > 0
    ensures TotalRules([src]) > 0
  {
    assert [src][..0] == [] && MergedDomains([]) == map[];
    var m := MergedDomains([src]);
    assert m == UnionDomains(MergedDomains([]), src.rules.domains);
    assert m.Keys == src.rules.domains.Keys;
    assert |m.Keys| == |m| && |src.rules.domains.Keys| == |src.rules.domains|;
  }

  // ---- where published rules come from -------------------------------------

  ghost predicate Holds(w: World, id: string, rules: ParsedRules) {
    && w.live.Some? && id in w.live.value.cachedSources && w.live.value.cachedSources[id].rules == rules
  }

  ghost predicate IsUpdate(m: Move) {
    m.event.Update? && m.pre.live.Some? && |m.event.answers| == |m.cfg.sources|
  }

  /** Source k is answered with a body that counts: the first one unless it is a 304, or
      after a 304 for which nothing is held the one of the unconditional repetition. */
  ghost predicate Brings(m: Move, k: nat, rules: ParsedRules)
    requires IsUpdate(m) && k < |m.cfg.sources|
  {
    var a := m.event.answers[k];
    && a.first.Response?
    && if !a.first.notModified then a.first.body == Some(rules)
       else m.cfg.sources[k].id !in m.pre.live.value.cachedSources && a.fallback.Response? && a.fallback.body == Some(rules)
  }

  /** Source k is answered with a 304 and these rules are held under its identifier. */
  ghost predicate Reuses(m: Move, k: nat, rules: ParsedRules)
    requires IsUpdate(m) && k < |m.cfg.sources|
  {
    m.event.answers[k].first.Response? && m.event.answers[k].first.notModified && Holds(m.pre, m.cfg.sources[k].id, rules)
  }

  /** The rules that source k contributes to the update; none if a fetch or parse fails. */
  ghost predicate Uses(m: Move, k: nat, rules: ParsedRules)
    requires IsUpdate(m) && k < |m.cfg.sources|
  {
    Brings(m, k, rules) || Reuses(m, k, rules)
  }

  lemma UsesIff(m: Move, k: nat, rules: ParsedRules)
    requires IsUpdate(m) && k < |m.cfg.sources|
    ensures var one := SyncOne(m.pre.live.value, m.cfg.sources[k], m.event.answers[k], m.event.start);
            Uses(m, k, rules) <==> one.Some? && one.value.rules == rules
  {
  }

  /** Of two sources with one identifier the later is held. */
  predicate LastOf(cfg: SyncConfig, id: string, k: nat) {
    k < |cfg.sources| && cfg.sources[k].id == id && forall l :: k < l < |cfg.sources| ==> cfg.sources[l].id != id
  }

  /** A published update in which the source with this identifier is answered with a body. */
  ghost predicate Renews(m: Move, id: string, rules: ParsedRules) {
    && IsUpdate(m) && m.event.result.Published?
    && exists k :: LastOf(m.cfg, id, k) && Brings(m, k, rules)
  }

  /** The process that is up after move i is the one that is up after move j. */
  ghost predicate SameProcess(run: seq<Move>, i: nat, j: nat)
    requires j < |run|
  {
    forall k :: i < k <= j ==> run[k].event.Update?
  }

  lemma {:induction false} ByIDHolds(sources: seq<Source>, cached: seq<CachedSource>, id: string) returns (k: nat)
    requires |sources| == |cached| && id in ByID(sources, cached)
    ensures k < |sources| && sources[k].id == id && ByID(sources, cached)[id] == cached[k]
    ensures forall l :: k < l < |sources| ==> sources[l].id != id
  {
    var n := |cached| - 1;
    if sources[n].id == id {
      k := n;
    } else {
      k := ByIDHolds(sources[..n], cached[..n], id);
      assert forall l :: k < l < n ==> sources[l] == sources[..n][l];
    }
  }

  lemma {:induction false} SyncFirstAt(v: Volatile, sources: seq<Source>, answers: seq<Answer>, start: Time, n: nat, k: nat)
    requires k < n <= |sources| == |answers| && SyncFirst(v, sources, answers, start, n).Some?
    ensures SyncOne(v, sources[k], answers[k], start) == Some(SyncFirst(v, sources, answers, start, n).value[k])
  {
    if k < n - 1 { SyncFirstAt(v, sources, answers, start, n - 1, k); }
  }

  /** One step back: renewed here, or held before by the same process and not renewed. */
  lemma RulesOrigin(m: Move, id: string, rules: ParsedRules)
    requires Took(m) && Holds(m.post, id, rules)
    ensures IsUpdate(m)
    ensures Renews(m, id, rules) || (Holds(m.pre, id, rules) && forall other :: !Renews(m, id, other))
  {
    if m.event.result.Published? {
      var k := HeldIsUsed(m, id, rules);
      if Reuses(m, k, rules) {
        forall other ensures !Renews(m, id, other) {
          forall l | LastOf(m.cfg, id, l) ensures !Brings(m, l, other) { assert l == k; }
        }
      }
    }
  }

  lemma HeldIsUsed(m: Move, id: string, rules: ParsedRules) returns (k: nat)
    requires Took(m) && m.event.Update? && m.event.result.Published? && Holds(m.post, id, rules)
    ensures IsUpdate(m) && LastOf(m.cfg, id, k) && Uses(m, k, rules)
  {
    var v, answers, start := m.pre.live.value, m.event.answers, m.event.start;
    var all := SyncFirst(v, m.cfg.sources, answers, start, |m.cfg.sources|).value;
    k := ByIDHolds(m.cfg.sources, all, id);
    SyncFirstAt(v, m.cfg.sources, answers, start, |m.cfg.sources|, k);
    UsesIff(m, k, rules);
  }

  /** The rules a process holds for a source are those of the latest body that it received
      for that source in an update it published: a 304 never brings back anything else,
      not even after a restart, when the durable validators are still sent, and a new body
      is never passed over. */
  lemma {:induction false} CachedRulesWereFetched(run: seq<Move>, i: nat, id: string, rules: ParsedRules) returns (j: nat)
    requires IsRun(run) && i < |run| && Holds(run[i].post, id, rules)
    ensures j <= i && SameProcess(run, j, i) && Renews(run[j], id, rules)
    ensures forall k, other :: j < k <= i ==> !Renews(run[k], id, other)
  {
    RunMove(run, i);
    RulesOrigin(run[i], id, rules);
    if Renews(run[i], id, rules) {
      j := i;
    } else {
      j := CachedRulesWereFetched(run, i - 1, id, rules);
    }
  }
}
