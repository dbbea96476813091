/** internal/policy/cache.go: the durable form of a rule set and its store. */
module Store {
  import opened Options
  import opened Netip
  import opened Sets
  import opened Instants
  import opened Domain
  import opened Snapshots
  import Ipv4

  const SCHEMA_VERSION := 1
  const TWO64: int := 0x1_0000_0000_0000_0000

  type U64 = x: int | 0 <= x < 0x1_0000_0000_0000_0000

  /** The text of a prefix. The library prints a valid prefix so that it parses back,
      and prints "invalid Prefix" for any other. */
  datatype PrefixText = PrefixText(prefix: Prefix) | InvalidText

  function PrefixString(p: Prefix): PrefixText {
    if p.IsValid() then PrefixText(p) else InvalidText
  }

  function ParsePrefix(t: PrefixText): Option<Prefix> {
    if t.PrefixText? then Some(t.prefix) else None
  }

  function Texts(ps: seq<Prefix>): seq<PrefixText> {
    seq(|ps|, i requires 0 <= i < |ps| => PrefixString(ps[i]))
  }

  /** The SHA-256 digest over the sorted rules, taken as free of collisions. */
  datatype Digest = NoDigest | Digest(domains: Domains, cidrs: multiset<PrefixText>)

  function ComputeContentHash(domains: Domains, cidrs: seq<PrefixText>): Digest {
    Digest(domains, multiset(cidrs))
  }

  datatype Source = Source(id: string, url: string, format: nat, bareDomainMode: nat, isPreset: bool)

  datatype SourceMeta = SourceMeta(id: string, url: string, etag: string, lastModified: string,
                                   checkedAt: Time, ruleCount: nat)

  /** `configHash` is the digest of the configured sources, again free of collisions. */
  datatype Generation = Generation(
    schemaVersion: int,
    generationID: string,
    version: U64,
    createdAt: Time,
    configHash: seq<Source>,
    sourcesMeta: map<string, SourceMeta>,
    domains: Domains,
    cidrs: seq<PrefixText>,
    domainCount: int,
    cidrCount: int,
    contentHash: Digest)

  /** What Commit writes: the digest and the counts filled in. */
  function Sealed(gen: Generation): Generation {
    gen.(contentHash := ComputeContentHash(gen.domains, gen.cidrs),
         domainCount := |gen.domains|,
         cidrCount := |gen.cidrs|)
  }

  /** What Load accepts. */
  predicate Loadable(gen: Generation) {
    && gen.schemaVersion == SCHEMA_VERSION
    && gen.version != 0 && gen.generationID != ""
    && gen.contentHash == ComputeContentHash(gen.domains, gen.cidrs)
  }

  /** How the file operations of one commit go; a failed one never reaches the rename. */
  datatype WriteOutcome = WriteFails | Renamed

  /** The file the rename replaces, and the temporary file beside it. */
  class FileStore {
    var file: Option<Generation>
    var temp: Option<Generation>

    constructor (file: Option<Generation>)
      ensures this.file == file && this.temp == None
    {
      this.file, this.temp := file, None;
    }

    /** Commit writes the whole temporary file before the rename, so `file` always
        holds a complete generation, the old one or the new one. */
    method Commit(gen: Generation, outcome: WriteOutcome) returns (ok: bool, sealed: Generation)
      modifies this
      ensures ok <==> gen.schemaVersion == SCHEMA_VERSION && outcome == Renamed
      ensures file == if ok then Some(Sealed(gen)) else old(file)
      ensures sealed == if gen.schemaVersion == SCHEMA_VERSION then Sealed(gen) else gen
    {
      if gen.schemaVersion != SCHEMA_VERSION {
        return false, gen;
      }
      sealed := gen.(contentHash := ComputeContentHash(gen.domains, gen.cidrs));
      sealed := sealed.(domainCount := |gen.domains|);
      sealed := sealed.(cidrCount := |gen.cidrs|);
      temp := Some(sealed);
      if outcome == WriteFails {
        temp := None;
        return false, sealed;
      }
      file := temp;
      temp := None;
      ok := true;
    }

    method Load(readable: bool) returns (gen: Option<Generation>)
      ensures gen == if readable && file.Some? && Loadable(file.value) then file else None
    {
      if !readable || file.None? {
        return None;
      }
      var g := file.value;
      if g.schemaVersion != SCHEMA_VERSION {
        return None;
      }
      if g.version == 0 || g.generationID == "" {
        return None;
      }
      if g.contentHash != ComputeContentHash(g.domains, g.cidrs) {
        return None;
      }
      gen := file;
    }
  }

  /** A committed generation loads back as it was written, unless its version wrapped
      around to 0 or it has no identifier. */
  lemma CommittedLoadsIff(gen: Generation)
    requires gen.schemaVersion == SCHEMA_VERSION
    ensures Loadable(Sealed(gen)) <==> gen.version != 0 && gen.generationID != ""
  {
  }

  /** A file whose rules were changed after the commit is refused; only the order of its
      prefixes is free. */
  lemma ChangedFileIsRefused(gen: Generation, domains: Domains, cidrs: seq<PrefixText>)
    ensures Loadable(Sealed(gen).(domains := domains, cidrs := cidrs)) ==>
              domains == gen.domains && multiset(cidrs) == multiset(gen.cidrs)
  {
  }

  // ---- GenerationToSnapshot ------------------------------------------------

  predicate Parsable(gen: Generation) {
    forall i :: 0 <= i < |gen.cidrs| ==> ParsePrefix(gen.cidrs[i]).Some?
  }

  function ParsedPrefixes(gen: Generation): seq<Prefix>
    requires Parsable(gen)
  {
    seq(|gen.cidrs|, i requires 0 <= i < |gen.cidrs| => ParsePrefix(gen.cidrs[i]).value.Masked())
  }

  /** The snapshot built from a durable generation. */
  ghost predicate Restored(s: Snapshot, gen: Generation)
    requires Parsable(gen)
  {
    && s.version == gen.version && s.generationID == gen.generationID && s.createdAt == gen.createdAt
    && s.domains == gen.domains && s.domainCount == |gen.domains|
    && s.cidrCount == |gen.cidrs|
    && (set id | id in s.sourceIDs) == gen.sourcesMeta.Keys
    && Ipv4.Indexes(s.ipv4, ParsedPrefixes(gen))
  }

  method CollectIDs(sourcesMeta: map<string, SourceMeta>) returns (ids: seq<string>)
    ensures (set id | id in ids) == sourcesMeta.Keys
  {
    ids := [];
    var todo := sourcesMeta.Keys;
    while todo != {}
      invariant todo <= sourcesMeta.Keys && (set id | id in ids) == sourcesMeta.Keys - todo
      decreases |todo|
    {
      NonEmpty(todo);
      var id :| id in todo;
      ghost var before := set x | x in ids;
      assert forall x :: x in ids + [id] <==> x in ids || x == id;
      todo := todo - {id};
      ids := ids + [id];
      assert (set x | x in ids) == before + {id};
    }
  }

  /** GenerationToSnapshot; None stands for a prefix that does not parse. */
  method GenerationToSnapshot(gen: Generation) returns (s: Option<Snapshot>)
    ensures s.Some? <==> Parsable(gen)
    ensures s.Some? ==> Restored(s.value, gen)
  {
    var prefixes: seq<Prefix> := [];
    for i := 0 to |gen.cidrs|
      invariant forall j :: 0 <= j < i ==> ParsePrefix(gen.cidrs[j]).Some?
      invariant |prefixes| == i
      invariant forall j :: 0 <= j < i ==> prefixes[j] == ParsePrefix(gen.cidrs[j]).value.Masked()
    {
      var p := ParsePrefix(gen.cidrs[i]);
      if p.None? {
        return None;
      }
      prefixes := prefixes + [p.value.Masked()];
    }
    assert prefixes == ParsedPrefixes(gen);
    forall p | p in prefixes && p.addr.V4? ensures p.IsValid() {
    }
    var idx := Ipv4.NewIPv4Index(prefixes);
    var ids := CollectIDs(gen.sourcesMeta);
    s := Some(Snapshot(gen.version, gen.generationID, gen.createdAt, |gen.domains|, |prefixes|, ids, gen.domains, idx));
  }

  // ---- the durable and the live form mean the same -------------------------

  ghost predicate AllValid(sources: seq<SourceRules>) {
    forall src, p :: src in sources && p in src.rules.cidrs ==> p.IsValid()
  }

  /** The rules of a generation are the aggregated rules of the sources. */
  predicate Aggregates(gen: Generation, sources: seq<SourceRules>) {
    && gen.domains == MergedDomains(sources)
    && gen.cidrs == Texts(DistinctCIDRs(sources))
  }

  /** The durable form can be turned back exactly when every prefix of every source is
      valid. An accepted rule such as ::ffff:1.2.3.0/120 is not (Ipv4.MappedNetworkIsLost). */
  lemma DurableFormParsesIff(gen: Generation, sources: seq<SourceRules>)
    requires Aggregates(gen, sources)
    ensures Parsable(gen) <==> AllValid(sources)
  {
    var all := DistinctCIDRs(sources);
    DistinctHolds(sources);
    if AllValid(sources) {
      forall i | 0 <= i < |gen.cidrs| ensures ParsePrefix(gen.cidrs[i]).Some? {
        assert all[i] in all;
        var src, q :| src in sources && q in src.rules.cidrs && all[i] == q.Masked();
        MaskedKeepsCover(q, 0);
      }
    }
    if Parsable(gen) {
      forall src, q | src in sources && q in src.rules.cidrs ensures q.IsValid() {
        assert q.Masked() in all;
        var i :| 0 <= i < |all| && all[i] == q.Masked();
        assert ParsePrefix(gen.cidrs[i]).Some?;
        MaskedKeepsCover(q, 0);
      }
    }
  }

  lemma TextsParseBack(gen: Generation, sources: seq<SourceRules>)
    requires Aggregates(gen, sources) && Parsable(gen)
    ensures ParsedPrefixes(gen) == DistinctCIDRs(sources)
  {
    var all := DistinctCIDRs(sources);
    DistinctAreMasked(sources);
    forall i | 0 <= i < |all| ensures ParsedPrefixes(gen)[i] == all[i] {
      assert all[i] in all;
      assert ParsePrefix(gen.cidrs[i]).Some?;
    }
  }

  /** For every source list, the snapshot restored from the durable form answers every
      name and address like the snapshot compiled in the same update, with the same
      counts: their rules are equal field by field. */
  lemma DurableMeansLive(live: Snapshot, restored: Snapshot, gen: Generation, sources: seq<SourceRules>, now: Time)
    requires Aggregates(gen, sources) && Parsable(gen)
    requires Compiled(live, gen.version, gen.generationID, sources, now)
    requires Restored(restored, gen)
    ensures restored.domains == live.domains && restored.ipv4 == live.ipv4
    ensures restored.domainCount == live.domainCount && restored.cidrCount == live.cidrCount
    ensures restored.version == live.version && restored.generationID == live.generationID
  {
    TextsParseBack(gen, sources);
    Ipv4.IndexIsCanonical(restored.ipv4, live.ipv4, ParsedPrefixes(gen), DistinctCIDRs(sources));
  }
}
