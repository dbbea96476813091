/** internal/policy/snapshot.go: compiled rule sets and how names and addresses are
    matched against them. */
module Snapshots {
  import opened Options
  import opened Netip
  import opened Sets
  import opened Instants
  import opened Domain
  import opened Spellings
  import Ipv4

  type Domains = map<string, Flags>

  datatype ParsedRules = ParsedRules(domains: Domains, cidrs: seq<Prefix>)

  datatype SourceRules = SourceRules(sourceID: string, rules: ParsedRules)

  datatype Snapshot = Snapshot(
    version: int,
    generationID: string,
    createdAt: Time,
    domainCount: nat,
    cidrCount: nat,
    sourceIDs: seq<string>,
    domains: Domains,
    ipv4: Ipv4.Index)

  // ---- matching a name -----------------------------------------------------

  /** The plain reading: some rule of the map covers the name. */
  ghost predicate SomeRuleCovers(domains: Domains, name: string) {
    exists base :: base in domains && RuleCovers(base, domains[base], name)
  }

  /** A position where a base may start: the name itself, or just after a dot. */
  predicate Boundary(name: string, k: int) {
    k == 0 || (0 < k <= |name| && name[k - 1] == '.')
  }

  /** The lookup the walk makes at one boundary. */
  predicate HitAt(domains: Domains, name: string, k: int)
    requires 0 <= k <= |name|
  {
    var q := name[k..];
    q in domains && (domains[q].inclusive
                     || (k == 0 && domains[q].exact)
                     || (k > 0 && domains[q].descendants))
  }

  /** A rule covers the name exactly when the walk finds a hit at some boundary. */
  lemma CoversIffHit(domains: Domains, name: string)
    ensures SomeRuleCovers(domains, name)
            <==> exists k :: 0 <= k <= |name| && Boundary(name, k) && HitAt(domains, name, k)
  {
    if SomeRuleCovers(domains, name) {
      var base :| base in domains && RuleCovers(base, domains[base], name);
      var k := if name == base then 0 else |name| - |base|;
      assert name[k..] == base;
      assert Boundary(name, k) && HitAt(domains, name, k);
    }
    if k :| 0 <= k <= |name| && Boundary(name, k) && HitAt(domains, name, k) {
      var base := name[k..];
      assert k == 0 ==> base == name;
      assert k > 0 ==> IsBelow(name, base);
      assert RuleCovers(base, domains[base], name);
    }
  }

  /** MatchCanonicalDomain: look the name up, cut it after its first dot, repeat. */
  method MatchCanonicalDomain(s: Option<Snapshot>, name: string) returns (found: bool)
    ensures found <==> s.Some? && name != "" && SomeRuleCovers(s.value.domains, name)
  {
    if s.None? || |s.value.domains| == 0 || name == "" {
      if s.Some? && |s.value.domains| == 0 {
        assert s.value.domains.Keys == {};
      }
      return false;
    }
    var domains := s.value.domains;
    CoversIffHit(domains, name);
    var orig := true;
    var q := name;
    ghost var k := 0;
    while true
      invariant 0 <= k <= |name| && q == name[k..] && Boundary(name, k) && (orig <==> k == 0)
      invariant forall j :: 0 <= j < k && Boundary(name, j) ==> !HitAt(domains, name, j)
      decreases |q|
    {
      if q in domains {
        var f := domains[q];
        if f.inclusive || (orig && f.exact) || (!orig && f.descendants) {
          assert HitAt(domains, name, k);
          return true;
        }
      }
      assert !HitAt(domains, name, k);
      var i := IndexByte(q, '.');
      NextBoundary(name, k, i);
      if i < 0 {
        return false;
      }
      q := q[i + 1..];
      k := k + i + 1;
      orig := false;
    }
  }

  /** Between a boundary and the first dot after it there is no other boundary. */
  lemma NextBoundary(name: string, k: nat, i: int)
    requires k <= |name| && Boundary(name, k) && i == IndexByte(name[k..], '.')
    ensures i >= 0 ==> Boundary(name, k + i + 1) && name[k..][i + 1..] == name[k + i + 1..]
    ensures forall j :: k < j <= (if i < 0 then |name| else k + i) ==> !Boundary(name, j)
  {
    forall j | k < j <= (if i < 0 then |name| else k + i) ensures !Boundary(name, j) {
      assert name[j - 1] == name[k..][j - 1 - k];
      if i >= 0 { assert name[k..][..i][j - 1 - k] == name[j - 1]; }
    }
  }

  /** MatchDomain: normalise, then walk. All spellings of a name are answered alike. */
  method MatchDomain(idna: Idna, s: Option<Snapshot>, name: string) returns (found: bool)
    ensures found <==> s.Some? && Normalize(idna, name).Canonical?
                       && SomeRuleCovers(s.value.domains, Normalize(idna, name).name)
    ensures forall a :: IsCanonical(a) && !Contains(a, "xn--") && Spells(name, a) ==>
              (found <==> s.Some? && SomeRuleCovers(s.value.domains, a))
  {
    forall a | IsCanonical(a) && !Contains(a, "xn--") && Spells(name, a) ensures Normalize(idna, name) == Canonical(a) {
      SpellingNormalizes(idna, name, a);
    }
    if s.None? {
      return false;
    }
    var canon := NormalizeDomain(idna, name);
    if canon == Rejected {
      return false;
    }
    NormalizeIsFixedPoint(idna, name);
    found := MatchCanonicalDomain(s, canon.name);
  }

  // ---- compiling -----------------------------------------------------------

  function FlagsAt(m: Domains, base: string): Flags {
    if base in m then m[base] else NO_FLAGS
  }

  function UnionDomains(m: Domains, n: Domains): Domains {
    map base | base in m.Keys + n.Keys :: FlagsAt(m, base).Or(FlagsAt(n, base))
  }

  function MergedDomains(sources: seq<SourceRules>): Domains {
    if sources == [] then map[]
    else UnionDomains(MergedDomains(sources[..|sources| - 1]), sources[|sources| - 1].rules.domains)
  }

  /** Appends the masked prefixes not met before, in order. */
  function AddDistinct(seen: seq<Prefix>, cidrs: seq<Prefix>): seq<Prefix> {
    if cidrs == [] then seen
    else
      var init := AddDistinct(seen, cidrs[..|cidrs| - 1]);
      var canon := cidrs[|cidrs| - 1].Masked();
      if canon in init then init else init + [canon]
  }

  function DistinctCIDRs(sources: seq<SourceRules>): seq<Prefix> {
    if sources == [] then []
    else AddDistinct(DistinctCIDRs(sources[..|sources| - 1]), sources[|sources| - 1].rules.cidrs)
  }

  function SourceIDs(sources: seq<SourceRules>): seq<string> {
    seq(|sources|, i requires 0 <= i < |sources| => sources[i].sourceID)
  }

  /** The snapshot CompileSnapshot publishes for a list of sources. */
  ghost predicate Compiled(s: Snapshot, version: int, id: string, sources: seq<SourceRules>, now: Time) {
    && s.version == version && s.generationID == id && s.createdAt == now
    && s.sourceIDs == SourceIDs(sources)
    && s.domains == MergedDomains(sources) && s.domainCount == |s.domains|
    && s.cidrCount == |DistinctCIDRs(sources)|
    && Ipv4.Indexes(s.ipv4, DistinctCIDRs(sources))
  }

  lemma UnionNothing(m: Domains)
    ensures UnionDomains(m, map[]) == m
  {
  }

  lemma UnionOneMore(m: Domains, n: Domains, todo: set<string>, base: string)
    requires base in todo && todo <= n.Keys
    ensures var u := UnionDomains(m, n - todo);
            UnionDomains(m, n - (todo - {base})) == u[base := FlagsAt(u, base).Or(n[base])]
  {
    var u, w := UnionDomains(m, n - todo), UnionDomains(m, n - (todo - {base}));
    var v := u[base := FlagsAt(u, base).Or(n[base])];
    assert FlagsAt(u, base) == FlagsAt(m, base);
    assert v.Keys == w.Keys;
    forall b | b in w ensures v[b] == w[b] {
      assert b == base || FlagsAt(n - todo, b) == FlagsAt(n - (todo - {base}), b);
    }
    assert v == w;
  }

  /** The inner loop over the domains of one source; the map order does not matter. */
  method OrInto(m: Domains, n: Domains) returns (r: Domains)
    ensures r == UnionDomains(m, n)
  {
    r := m;
    UnionNothing(m);
    var todo := n.Keys;
    assert n - todo == map[];
    while todo != {}
      invariant todo <= n.Keys && r == UnionDomains(m, n - todo)
      decreases |todo|
    {
      NonEmpty(todo);
      var base :| base in todo;
      UnionOneMore(m, n, todo, base);
      r := r[base := FlagsAt(r, base).Or(n[base])];
      todo := todo - {base};
    }
    assert n - {} == n;
  }

  /** The inner loop over the prefixes of one source. */
  method AppendDistinct(all: seq<Prefix>, seen: set<Prefix>, cidrs: seq<Prefix>)
    returns (all': seq<Prefix>, seen': set<Prefix>)
    requires seen == set p | p in all
    ensures all' == AddDistinct(all, cidrs) && seen' == set p | p in all'
  {
    all', seen' := all, seen;
    for i := 0 to |cidrs|
      invariant all' == AddDistinct(all, cidrs[..i])
      invariant seen' == set p | p in all'
    {
      assert cidrs[..i + 1][..i] == cidrs[..i];
      var canon := cidrs[i].Masked();
      if canon !in seen' {
        seen' := seen' + {canon};
        all' := all' + [canon];
      }
    }
    assert cidrs[..|cidrs|] == cidrs;
  }

  /** CompileSnapshot; None stands for its error on an empty source list. */
  method CompileSnapshot(version: int, id: string, sources: seq<SourceRules>, now: Time)
    returns (s: Option<Snapshot>)
    ensures s.None? <==> sources == []
    ensures s.Some? ==> Compiled(s.value, version, id, sources, now)
  {
    if |sources| == 0 {
      return None;
    }
    var mergedDomains: Domains := map[];
    var allCIDRs: seq<Prefix> := [];
    var seenCIDRs: set<Prefix> := {};
    var sourceIDs: seq<string> := [];
    for i := 0 to |sources|
      invariant sourceIDs == SourceIDs(sources[..i])
      invariant mergedDomains == MergedDomains(sources[..i])
      invariant allCIDRs == DistinctCIDRs(sources[..i])
      invariant seenCIDRs == set p | p in allCIDRs
    {
      assert sources[..i + 1][..i] == sources[..i];
      var src := sources[i];
      sourceIDs := sourceIDs + [src.sourceID];
      mergedDomains := OrInto(mergedDomains, src.rules.domains);
      allCIDRs, seenCIDRs := AppendDistinct(allCIDRs, seenCIDRs, src.rules.cidrs);
    }
    assert sources[..|sources|] == sources;
    DistinctAreMasked(sources);
    var idx := Ipv4.NewIPv4Index(allCIDRs);
    s := Some(Snapshot(version, id, now, |mergedDomains|, |allCIDRs|, sourceIDs, mergedDomains, idx));
  }

  // ---- compiling is a union ------------------------------------------------

  ghost predicate NoRepeats(ps: seq<Prefix>) {
    forall i, j :: 0 <= i < j < |ps| ==> ps[i] != ps[j]
  }

  lemma {:induction false} AddDistinctHolds(seen: seq<Prefix>, cidrs: seq<Prefix>)
    ensures forall p :: p in AddDistinct(seen, cidrs) <==> p in seen || exists q :: q in cidrs && p == q.Masked()
    ensures NoRepeats(seen) ==> NoRepeats(AddDistinct(seen, cidrs))
  {
    if cidrs != [] {
      var init, last := cidrs[..|cidrs| - 1], cidrs[|cidrs| - 1];
      AddDistinctHolds(seen, init);
      assert cidrs == init + [last];
      var r := AddDistinct(seen, init);
      assert forall i :: 0 <= i < |r| ==> r[i] in r;
    }
  }

  /** The aggregated prefixes are exactly the masked prefixes of the sources, each once. */
  lemma {:induction false} DistinctHolds(sources: seq<SourceRules>)
    ensures forall p :: p in DistinctCIDRs(sources)
              <==> exists src, q :: src in sources && q in src.rules.cidrs && p == q.Masked()
    ensures NoRepeats(DistinctCIDRs(sources))
  {
    if sources != [] {
      var init, last := sources[..|sources| - 1], sources[|sources| - 1];
      DistinctHolds(init);
      AddDistinctHolds(DistinctCIDRs(init), last.rules.cidrs);
      assert sources == init + [last];
    }
  }

  lemma DistinctAreMasked(sources: seq<SourceRules>)
    ensures Ipv4.Indexable(DistinctCIDRs(sources))
    ensures forall p :: p in DistinctCIDRs(sources) ==> p.Masked() == p && (p.IsValid() || p == NO_PREFIX)
  {
    DistinctHolds(sources);
    forall p | p in DistinctCIDRs(sources)
      ensures p.Masked() == p && (p.IsValid() || p == NO_PREFIX)
    {
      var src, q :| src in sources && q in src.rules.cidrs && p == q.Masked();
      MaskedKeepsCover(q, 0);
    }
  }

  /** A name matches the merged map exactly when some source alone matches it. */
  lemma {:induction false} DomainsAreUnion(sources: seq<SourceRules>, name: string)
    ensures SomeRuleCovers(MergedDomains(sources), name)
            <==> exists src :: src in sources && SomeRuleCovers(src.rules.domains, name)
  {
    if sources != [] {
      var init, last := sources[..|sources| - 1], sources[|sources| - 1];
      DomainsAreUnion(init, name);
      UnionCovers(MergedDomains(init), last.rules.domains, name);
      assert sources == init + [last];
    }
  }

  lemma UnionCovers(m: Domains, n: Domains, name: string)
    ensures SomeRuleCovers(UnionDomains(m, n), name) <==> SomeRuleCovers(m, name) || SomeRuleCovers(n, name)
  {
    var u := UnionDomains(m, n);
    forall base | base in u
      ensures RuleCovers(base, u[base], name)
              <==> RuleCovers(base, FlagsAt(m, base), name) || RuleCovers(base, FlagsAt(n, base), name)
    {
      FlagsUnion(base, FlagsAt(m, base), FlagsAt(n, base), name);
    }
    ZeroCoversNothing(name);
    if base :| base in m && RuleCovers(base, m[base], name) { assert base in u; }
    if base :| base in n && RuleCovers(base, n[base], name) { assert base in u; }
  }

  lemma ZeroCoversNothing(name: string)
    ensures forall base :: !RuleCovers(base, NO_FLAGS, name)
  {
  }

  /** Matching a compiled snapshot is matching some source alone: the same names, the
      same addresses, and the counts are those of distinct bases and prefixes. */
  lemma CompiledIsUnion(s: Snapshot, version: int, id: string, sources: seq<SourceRules>, now: Time, name: string, a: U32)
    requires Compiled(s, version, id, sources, now)
    ensures SomeRuleCovers(s.domains, name) <==> exists src :: src in sources && SomeRuleCovers(src.rules.domains, name)
    ensures Ipv4.Covered(s.ipv4.ranges, a)
            <==> exists src :: src in sources && Ipv4.SomePrefixCovers(src.rules.cidrs, a)
  {
    DomainsAreUnion(sources, name);
    DistinctHolds(sources);
    var all := DistinctCIDRs(sources);
    if Ipv4.SomePrefixCovers(all, a) {
      var p :| p in all && p.Covers(a);
      var src, q :| src in sources && q in src.rules.cidrs && p == q.Masked();
      MaskedKeepsCover(q, a);
      assert Ipv4.SomePrefixCovers(src.rules.cidrs, a);
    }
    if src :| src in sources && Ipv4.SomePrefixCovers(src.rules.cidrs, a) {
      var q :| q in src.rules.cidrs && q.Covers(a);
      MaskedKeepsCover(q, a);
      assert q.Masked() in all;
    }
  }

  // ---- Matcher -------------------------------------------------------------

  /** Holds the snapshot in force; readers load it, Publish replaces it. */
  class Matcher {
    var current: Option<Snapshot>

    constructor ()
      ensures current == None
    {
      current := None;
    }

    method Publish(s: Snapshot)
      modifies this
      ensures current == Some(s)
    {
      current := Some(s);
    }
  }
}
