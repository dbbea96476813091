/** What an update answers and publishes, told by what its sources answered. */
module SyncOutcomes {
  import opened Options
  import opened Netip
  import opened Instants
  import opened Snapshots
  import opened Store
  import opened Sync
  import opened SyncRuns
  import Ipv4
  import opened Decimal

  /** The rules each source contributes, in the order of the configuration. */
  ghost predicate Used(m: Move, list: seq<SourceRules>) {
    && IsUpdate(m) && |list| == |m.cfg.sources|
    && forall k :: 0 <= k < |list| ==> list[k].sourceID == m.cfg.sources[k].id && Uses(m, k, list[k].rules)
  }

  ghost predicate Yields(m: Move, k: nat)
    requires IsUpdate(m) && k < |m.cfg.sources|
  {
    exists rules :: Uses(m, k, rules)
  }

  function Fetched(m: Move, n: nat): Option<seq<CachedSource>>
    requires m.pre.live.Some? && m.event.Update? && n <= |m.cfg.sources| == |m.event.answers|
  {
    SyncFirst(m.pre.live.value, m.cfg.sources, m.event.answers, m.event.start, n)
  }

  lemma {:induction false} FetchedIff(m: Move, n: nat)
    requires IsUpdate(m) && n <= |m.cfg.sources|
    ensures Fetched(m, n).Some? <==> forall k :: 0 <= k < n ==> Yields(m, k)
    ensures Fetched(m, n).Some? ==> forall k :: 0 <= k < n ==> Uses(m, k, Fetched(m, n).value[k].rules)
  {
    if n > 0 {
      FetchedIff(m, n - 1);
      YieldsIff(m, n - 1);
    }
  }

  lemma YieldsIff(m: Move, k: nat)
    requires IsUpdate(m) && k < |m.cfg.sources|
    ensures var one := SyncOne(m.pre.live.value, m.cfg.sources[k], m.event.answers[k], m.event.start);
            && (Yields(m, k) <==> one.Some?)
            && (one.Some? ==> Uses(m, k, one.value.rules))
  {
    var one := SyncOne(m.pre.live.value, m.cfg.sources[k], m.event.answers[k], m.event.start);
    if one.Some? { UsesIff(m, k, one.value.rules); }
    if rules :| Uses(m, k, rules) { UsesIff(m, k, rules); }
  }

  lemma UsesOnce(m: Move, k: nat, a: ParsedRules, b: ParsedRules)
    requires IsUpdate(m) && k < |m.cfg.sources| && Uses(m, k, a) && Uses(m, k, b)
    ensures a == b
  {
  }

  lemma UsedIsFetched(m: Move, list: seq<SourceRules>)
    requires Used(m, list)
    ensures var all := Fetched(m, |m.cfg.sources|);
            all.Some? && RulesOf(m.cfg.sources, all.value) == list
  {
    forall k | 0 <= k < |list| ensures Yields(m, k) { assert Uses(m, k, list[k].rules); }
    FetchedIff(m, |m.cfg.sources|);
    var all := Fetched(m, |m.cfg.sources|).value;
    forall k | 0 <= k < |list| ensures RulesOf(m.cfg.sources, all)[k] == list[k] {
      UsesOnce(m, k, all[k].rules, list[k].rules);
    }
  }

  /** An update fails for a source exactly when some source contributes nothing. */
  lemma SourceFailsIff(m: Move)
    requires Took(m) && m.event.Update?
    ensures IsUpdate(m)
    ensures m.event.result == Failed(SourceFailed) <==> exists k :: 0 <= k < |m.cfg.sources| && !Yields(m, k)
  {
    FetchedIff(m, |m.cfg.sources|);
  }

  /** The number of rules, and whether it is fewer than half of those in force. */
  function Rules(list: seq<SourceRules>): nat { |MergedDomains(list)| + |DistinctCIDRs(list)| }

  predicate Shrinks(m: Move, list: seq<SourceRules>) {
    InForce(m.pre) && !m.cfg.forceShrink && Rules(list) < FileRules(m.pre) / 2
  }

  lemma PreparedOutcome(m: Move, list: seq<SourceRules>)
    requires IsUpdate(m) && Agrees(m.pre) && Used(m, list)
    ensures var p := Prepare(m.cfg, m.pre.live.value, m.event.answers, m.event.start);
            && (Rules(list) == 0 ==> p == Refused(ZeroRules))
            && (Rules(list) > 0 && Shrinks(m, list) ==> p == Refused(ShrinkGuard))
            && (Rules(list) > 0 && !Shrinks(m, list) ==>
                  p.Candidate? && p.gen.version == if InForce(m.pre) then (FileVersion(m.pre) + 1) % TWO64 else 1)
  {
    UsedIsFetched(m, list);
    PrepareOf(m.cfg, m.pre.live.value, m.event.answers, m.event.start, list);
    GuardIff(m, list);
  }

  lemma GuardIff(m: Move, list: seq<SourceRules>)
    requires m.pre.live.Some? && Agrees(m.pre)
    ensures ShrinkRefused(m.cfg, m.pre.live.value.current, Rules(list)) <==> Shrinks(m, list)
    ensures VersionAfter(m.pre.live.value) == if InForce(m.pre) then (FileVersion(m.pre) + 1) % TWO64 else 1
  {
  }

  lemma PrepareOf(cfg: SyncConfig, v: Volatile, answers: seq<Answer>, start: Time, list: seq<SourceRules>)
    requires |answers| == |cfg.sources|
    requires var all := SyncFirst(v, cfg.sources, answers, start, |cfg.sources|); all.Some? && RulesOf(cfg.sources, all.value) == list
    ensures var p, refused := Prepare(cfg, v, answers, start), ShrinkRefused(cfg, v.current, Rules(list));
            && (Rules(list) == 0 ==> p == Refused(ZeroRules))
            && (Rules(list) > 0 && refused ==> p == Refused(ShrinkGuard))
            && (Rules(list) > 0 && !refused ==> p.Candidate? && p.gen.version == VersionAfter(v))
  {
  }

  /** Otherwise the number of rules decides: none is refused, and so is fewer than half of
      those in force unless forced; the rest is published, with the next version, exactly
      when the file could be written. Whatever is not published changes nothing. */
  lemma UpdateOutcome(m: Move, list: seq<SourceRules>)
    requires Took(m) && m.event.Update? && Agrees(m.pre) && Used(m, list)
    ensures m.event.result == Failed(ZeroRules) <==> Rules(list) == 0
    ensures m.event.result == Failed(ShrinkGuard) <==> Rules(list) > 0 && Shrinks(m, list)
    ensures m.event.result == Failed(CommitFailed) <==> Rules(list) > 0 && !Shrinks(m, list) && m.event.outcome == WriteFails
    ensures m.event.result.Published? <==> Rules(list) > 0 && !Shrinks(m, list) && m.event.outcome == Renamed
    ensures m.event.result.Published? ==>
              m.event.result.version == if InForce(m.pre) then (FileVersion(m.pre) + 1) % TWO64 else 1
    ensures !m.event.result.Published? ==> m.post == m.pre
  {
    PreparedOutcome(m, list);
  }

  /** What a published update puts in force covers a name or an address exactly when the
      rules that some source contributed do: its body if it did not answer 304, the rules
      held for it if it did and there are some, and the body of the repetition otherwise. */
  lemma PublishedIsWhatWasAnswered(m: Move, name: string, a: U32)
    requires Took(m) && m.event.Update? && m.event.result.Published?
    ensures IsUpdate(m) && InForce(m.post)
    ensures SomeRuleCovers(m.post.live.value.current.value.domains, name)
            <==> exists k, rules :: 0 <= k < |m.cfg.sources| && Uses(m, k, rules) && SomeRuleCovers(rules.domains, name)
    ensures Ipv4.Covered(m.post.live.value.current.value.ipv4.ranges, a)
            <==> exists k, rules, p :: 0 <= k < |m.cfg.sources| && Uses(m, k, rules) && p in rules.cidrs && p.Covers(a)
  {
    PublishedAgrees(m);
    FetchedIff(m, |m.cfg.sources|);
    var list := RulesOf(m.cfg.sources, Fetched(m, |m.cfg.sources|).value);
    assert Used(m, list);
    var s := m.post.live.value.current.value;
    CompiledIsUnion(s, s.version, s.generationID, list, m.event.now, name, a);
    ListCovers(m, list, name, a);
  }

  lemma ListCovers(m: Move, list: seq<SourceRules>, name: string, a: U32)
    requires Used(m, list)
    ensures (exists src :: src in list && SomeRuleCovers(src.rules.domains, name))
            <==> exists k, rules :: 0 <= k < |m.cfg.sources| && Uses(m, k, rules) && SomeRuleCovers(rules.domains, name)
    ensures (exists src, p :: src in list && p in src.rules.cidrs && p.Covers(a))
            <==> exists k, rules, p :: 0 <= k < |m.cfg.sources| && Uses(m, k, rules) && p in rules.cidrs && p.Covers(a)
  {
    forall k, rules | 0 <= k < |list| && Uses(m, k, rules) ensures list[k] in list && list[k].rules == rules {
      UsesOnce(m, k, rules, list[k].rules);
    }
  }

  /** The validators of the next request to a source: those of the answer that counted,
      and after a 304 without new ones those that were sent. */
  lemma ValidatorsFollow(m: Move, k: nat)
    requires Took(m) && m.event.Update? && m.event.result.Published?
    requires k < |m.cfg.sources| && LastOf(m.cfg, m.cfg.sources[k].id, k)
    ensures IsUpdate(m) && m.post.live.Some?
    ensures var src, first := m.cfg.sources[k], m.event.answers[k].first;
            var sent, next := Validators(m.pre.live.value, src), Validators(m.post.live.value, src);
            && first.Response?
            && (!first.notModified ==> next == (first.etag, first.lastModified))
            && (first.notModified && src.id in m.pre.live.value.cachedSources ==>
                  next == (if first.etag == "" then sent.0 else first.etag,
                           if first.lastModified == "" then sent.1 else first.lastModified))
  {
    var src, all := m.cfg.sources[k], Fetched(m, |m.cfg.sources|).value;
    SyncFirstAt(m.pre.live.value, m.cfg.sources, m.event.answers, m.event.start, |m.cfg.sources|, k);
    ByIDLast(m.cfg.sources, all, k);
  }

  lemma {:induction false} ByIDLast(sources: seq<Source>, cached: seq<CachedSource>, k: nat)
    requires |sources| == |cached| && k < |sources|
    requires forall l :: k < l < |sources| ==> sources[l].id != sources[k].id
    ensures sources[k].id in ByID(sources, cached) && ByID(sources, cached)[sources[k].id] == cached[k]
  {
    var n := |cached| - 1;
    if k < n {
      assert sources[..n][k] == sources[k];
      ByIDLast(sources[..n], cached[..n], k);
    }
  }

  /** Validators are sent only to the address they came from. */
  lemma ValidatorsKeepToTheirURL(v: Volatile, src: Source)
    requires src.id in v.cachedSources ==> v.cachedSources[src.id].meta.url != src.url
    requires v.cachedGen.Some? && src.id in v.cachedGen.value.sourcesMeta ==> v.cachedGen.value.sourcesMeta[src.id].url != src.url
    ensures Validators(v, src) == ("", "")
  {
  }

  // ---- identifiers ---------------------------------------------------------

  /** Different versions or times have different identifiers. */
  lemma GenerationIDsDiffer(v: U64, s: Time, w: U64, t: Time)
    requires GenerationID(v, s) == GenerationID(w, t)
    ensures v == w && s == t
  {
    var a, b := Format(v), Format(w);
    var x, y := After(s), After(t);
    IDParts(v, s);
    IDParts(w, t);
    assert a + "-" + x == GenerationID(v, s)[4..] == b + "-" + y;
    SameNumeral(a, x, b, y);
    FormatValue(v);
    FormatValue(w);
    SameTime(s, t);
  }

  function After(s: Time): string { if s < 0 then "-" + Format(-s) else Format(s) }

  lemma IDParts(v: U64, s: Time)
    ensures GenerationID(v, s)[4..] == Format(v) + "-" + After(s)
  {
    assert GenerationID(v, s) == "gen-" + (Format(v) + "-" + After(s));
  }

  lemma SameNumeral(a: string, x: string, b: string, y: string)
    requires AllDigits(a) && AllDigits(b) && a + "-" + x == b + "-" + y
    ensures a == b && x == y
  {
    var s := a + "-" + x;
    assert s[|a|] == '-' && s[|b|] == '-';
    assert forall i :: 0 <= i < |a| ==> s[i] == a[i] && IsDigit(a[i]);
    assert forall i :: 0 <= i < |b| ==> s[i] == b[i] && IsDigit(b[i]);
    assert a == s[..|a|] && b == s[..|b|];
    assert x == s[|a| + 1..] && y == s[|b| + 1..];
  }

  lemma SignOf(s: Time)
    ensures After(s) != "" && (After(s)[0] == '-' <==> s < 0)
    ensures s < 0 ==> After(s)[1..] == Format(-s)
  {
  }

  lemma SameTime(s: Time, t: Time)
    requires After(s) == After(t)
    ensures s == t
  {
    SignOf(s);
    SignOf(t);
    FormatValue(if s < 0 then -s else s);
    FormatValue(if t < 0 then -t else t);
  }
}
