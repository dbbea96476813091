/** internal/policy/ipv4.go: prefixes become ranges, ranges are merged, and an
    address is found by binary search. */
module Ipv4 {
  import opened Netip

  datatype Range = Range(lo: U32, hi: U32)

  predicate In(r: Range, n: int) { r.lo <= n <= r.hi }

  /** Some range of the list holds n. */
  predicate Covered(rs: seq<Range>, n: int) {
    rs != [] && (In(rs[|rs| - 1], n) || Covered(rs[..|rs| - 1], n))
  }

  lemma {:induction false} CoveredIff(rs: seq<Range>, n: int)
    ensures Covered(rs, n) <==> exists i :: 0 <= i < |rs| && In(rs[i], n)
  {
    if rs != [] {
      var init := rs[..|rs| - 1];
      CoveredIff(init, n);
      assert forall i :: 0 <= i < |init| ==> init[i] == rs[i];
    }
  }

  ghost predicate WellFormed(rs: seq<Range>) {
    forall i :: 0 <= i < |rs| ==> rs[i].lo <= rs[i].hi
  }

  /** Sorted, and at least one address free between neighbours. */
  ghost predicate Separated(rs: seq<Range>) {
    && WellFormed(rs)
    && forall i, j :: 0 <= i < j < |rs| ==> rs[i].hi + 1 < rs[j].lo
  }

  // ---- prefixToRange -------------------------------------------------------

  /** Bitwise or, bit by bit from the low end. */
  function BitOr(x: nat, y: nat): nat
    decreases x + y
  {
    if x == 0 && y == 0 then 0
    else 2 * BitOr(x / 2, y / 2) + (if x % 2 == 1 || y % 2 == 1 then 1 else 0)
  }

  lemma {:induction false} OrFillsLowBits(q: nat, k: nat)
    ensures BitOr(q * Pow2(k), Pow2(k) - 1) == q * Pow2(k) + Pow2(k) - 1
  {
    if k == 0 {
      OrZero(q);
    } else {
      var a, b := q * Pow2(k - 1), Pow2(k - 1) - 1;
      assert q * Pow2(k) == 2 * a;
      BitOrStep(a, b);
      OrFillsLowBits(q, k - 1);
    }
  }

  lemma BitOrStep(a: nat, b: nat)
    ensures BitOr(2 * a, 2 * b + 1) == 2 * BitOr(a, b) + 1
  {
  }

  lemma {:induction false} OrZero(x: nat)
    ensures BitOr(x, 0) == x
  {
    if x > 0 { OrZero(x / 2); }
  }

  /** The range of a prefix: masked address, and the same with all host bits set.
      As in the source a prefix of length 0 is special, because 1 << 32 does not
      fit the word. */
  function PrefixToRange(p: Prefix): (r: Range)
    requires p.addr.V4? && p.IsValid()
    ensures r.lo <= r.hi
    ensures forall n: U32 :: In(r, n) <==> p.Covers(n)
  {
    var lo := p.Masked().addr.u;
    if p.bits == 0 then
      RangeOfPrefix(p);
      Range(lo, WORD - 1)
    else
      RangeOfPrefix(p);
      Range(lo, BitOr(lo, Pow2(32 - p.bits) - 1))
  }

  lemma RangeOfPrefix(p: Prefix)
    requires p.addr.V4? && p.IsValid()
    ensures var lo := p.Masked().addr.u; var m := Pow2(32 - p.bits);
            && lo + m <= WORD
            && BitOr(lo, m - 1) == lo + m - 1
            && (p.bits == 0 ==> lo == 0 && m == WORD)
            && forall n: U32 :: lo <= n <= lo + m - 1 <==> p.Covers(n)
  {
    var k := 32 - p.bits;
    BlockFitsWord(p.addr.u, p.bits);
    OrFillsBlock(p.addr.u, k);
    forall n: U32 ensures InBlock(p.addr.u, Pow2(k), n) <==> p.Covers(n) {
      QuotientIsBlock(n, p.addr.u / Pow2(k), Pow2(k));
    }
  }

  predicate InBlock(x: nat, m: nat, n: nat)
    requires m > 0
  {
    BlockOf(x, m) <= n <= BlockOf(x, m) + m - 1
  }

  lemma OrFillsBlock(x: nat, k: nat)
    ensures BitOr(BlockOf(x, Pow2(k)), Pow2(k) - 1) == BlockOf(x, Pow2(k)) + Pow2(k) - 1
  {
    OrFillsLowBits(Quotient(x, Pow2(k)), k);
  }

  lemma BlockFitsWord(x: U32, bits: nat)
    requires bits <= 32
    ensures BlockOf(x, Pow2(32 - bits)) + Pow2(32 - bits) <= WORD
    ensures bits == 0 ==> BlockOf(x, Pow2(32 - bits)) == 0 && Pow2(32 - bits) == WORD
  {
    Pow2Split(bits, 32 - bits);
    Pow2Is32();
    BlocksFit(x, Pow2(bits), Pow2(32 - bits));
  }

  /** Blocks of size m divide the word, so the block of x lies inside it. */
  lemma BlocksFit(x: U32, t: nat, m: nat)
    requires m > 0 && t * m == WORD
    ensures BlockOf(x, m) + m <= WORD
    ensures t == 1 ==> BlockOf(x, m) == 0
  {
    var q := x / m;
    if t <= q { MulMono(t, q, m); }
    MulMono(q + 1, t, m);
    assert (q + 1) * m == q * m + m;
  }

  lemma {:induction false} Pow2Split(a: nat, b: nat)
    ensures Pow2(a) * Pow2(b) == Pow2(a + b)
  {
    if a > 0 {
      Pow2Split(a - 1, b);
      assert Pow2(a) * Pow2(b) == 2 * (Pow2(a - 1) * Pow2(b));
    }
  }

  lemma Pow2Is32()
    ensures Pow2(32) == WORD
  {
    assert Pow2(8) == 256;
    Pow2Split(8, 8);
    Pow2Split(16, 16);
  }

  // ---- mergeRanges ---------------------------------------------------------

  predicate Before(a: Range, b: Range) {
    a.lo < b.lo || (a.lo == b.lo && a.hi <= b.hi)
  }

  predicate SortedRanges(rs: seq<Range>) {
    forall i, j :: 0 <= i < j < |rs| ==> Before(rs[i], rs[j])
  }

  /** Stands for the library sort: the order on ranges is total, so its result
      does not depend on the algorithm. */
  function Sorted(rs: seq<Range>): (r: seq<Range>)
    ensures SortedRanges(r) && multiset(r) == multiset(rs)
  {
    if rs == [] then []
    else
      var rest := Sorted(rs[..|rs| - 1]);
      assert rs == rs[..|rs| - 1] + [rs[|rs| - 1]];
      InsertRange(rest, rs[|rs| - 1])
  }

  function InsertRange(s: seq<Range>, x: Range): (r: seq<Range>)
    requires SortedRanges(s)
    ensures forall i :: 0 <= i < |r| ==> r[i] == x || r[i] in s
    ensures SortedRanges(r)
    ensures multiset(r) == multiset(s) + multiset{x}
  {
    if s == [] || Before(s[|s| - 1], x) then s + [x]
    else
      var init, last := s[..|s| - 1], s[|s| - 1];
      assert multiset(s) == multiset(init) + multiset{last} by { assert s == init + [last]; }
      InsertRange(init, x) + [last]
  }

  lemma SameElements(a: seq<Range>, b: seq<Range>)
    requires multiset(a) == multiset(b)
    ensures |a| == |b|
    ensures SameCover(a, b)
    ensures WellFormed(a) ==> WellFormed(b)
  {
    assert |multiset(a)| == |a| && |multiset(b)| == |b|;
    forall n ensures Covered(a, n) <==> Covered(b, n) {
      if Covered(a, n) { CoveredTransfers(a, b, n); }
      if Covered(b, n) { CoveredTransfers(b, a, n); }
    }
    forall i | 0 <= i < |b| && WellFormed(a) ensures b[i].lo <= b[i].hi {
      assert b[i] in multiset(b) && b[i] in a;
    }
  }

  lemma CoveredTransfers(a: seq<Range>, b: seq<Range>, n: int)
    requires multiset(a) == multiset(b) && Covered(a, n)
    ensures Covered(b, n)
  {
    CoveredIff(a, n);
    CoveredIff(b, n);
    var i :| 0 <= i < |a| && In(a[i], n);
    assert a[i] in multiset(a) && a[i] in b;
  }

  lemma AppendCovered(s: seq<Range>, x: Range, n: int)
    ensures Covered(s + [x], n) <==> Covered(s, n) || In(x, n)
  {
    assert (s + [x])[..|s|] == s;
  }

  /** The same addresses, whatever the ranges. */
  ghost predicate SameCover(a: seq<Range>, b: seq<Range>) {
    forall n :: Covered(a, n) <==> Covered(b, n)
  }

  /** One step of the merge: extend the last range while the next one overlaps or
      touches it, else append. */
  function Absorb(out: seq<Range>, r: Range): seq<Range> {
    if out == [] then [r]
    else
      var last := out[|out| - 1];
      if r.lo > last.hi + 1 then out + [r]
      else if r.hi > last.hi then out[|out| - 1 := last.(hi := r.hi)]
      else out
  }

  lemma AbsorbSeparated(out: seq<Range>, r: Range)
    requires Separated(out) && r.lo <= r.hi
    requires out != [] ==> out[|out| - 1].lo <= r.lo
    ensures Separated(Absorb(out, r)) && Absorb(out, r) != []
    ensures Absorb(out, r)[|Absorb(out, r)| - 1].lo <= r.lo
  {
  }

  lemma AbsorbCovers(out: seq<Range>, r: Range)
    requires WellFormed(out) && r.lo <= r.hi
    requires out != [] ==> out[|out| - 1].lo <= r.lo
    ensures SameCover(Absorb(out, r), out + [r])
  {
    forall n ensures Covered(Absorb(out, r), n) <==> Covered(out + [r], n) {
      AppendCovered(out, r, n);
      if out != [] {
        var init, last := out[..|out| - 1], out[|out| - 1];
        assert out == init + [last];
        AppendCovered(init, last, n);
        AppendCovered(init, last.(hi := r.hi), n);
        assert out[|out| - 1 := last.(hi := r.hi)] == init + [last.(hi := r.hi)];
      }
    }
  }

  lemma AppendSameCover(a: seq<Range>, b: seq<Range>, r: Range)
    requires SameCover(a, b)
    ensures SameCover(a + [r], b + [r])
  {
    forall n ensures Covered(a + [r], n) <==> Covered(b + [r], n) {
      AppendCovered(a, r, n);
      AppendCovered(b, r, n);
      assert Covered(a, n) <==> Covered(b, n);
    }
  }

  /** The first k sorted ranges, absorbed one after the other. */
  function MergeFirst(sorted: seq<Range>, k: nat): seq<Range>
    requires k <= |sorted|
  {
    if k == 0 then [] else Absorb(MergeFirst(sorted, k - 1), sorted[k - 1])
  }

  lemma {:induction false} MergeFirstIsMerged(sorted: seq<Range>, k: nat)
    requires k <= |sorted| && SortedRanges(sorted) && WellFormed(sorted)
    ensures var out := MergeFirst(sorted, k);
            && Separated(out)
            && (out != [] ==> k > 0 && out[|out| - 1].lo <= sorted[k - 1].lo)
            && SameCover(out, sorted[..k])
  {
    if k > 0 {
      var out, r := MergeFirst(sorted, k - 1), sorted[k - 1];
      MergeFirstIsMerged(sorted, k - 1);
      if out != [] { assert Before(sorted[k - 2], r); }
      AbsorbSeparated(out, r);
      AbsorbCovers(out, r);
      AppendSameCover(out, sorted[..k - 1], r);
      assert sorted[..k] == sorted[..k - 1] + [r];
    }
  }

  lemma MergedSortIsMerge(ranges: seq<Range>)
    requires WellFormed(ranges)
    ensures var sorted := Sorted(ranges); var out := MergeFirst(sorted, |sorted|);
            Separated(out) && SameCover(out, ranges)
  {
    var sorted := Sorted(ranges);
    SameElements(ranges, sorted);
    MergeFirstIsMerged(sorted, |sorted|);
    assert sorted[..|sorted|] == sorted;
  }

  /** mergeRanges sorts by (lo, hi), then extends the last range in place while
      the next one overlaps or touches it. */
  method MergeRanges(ranges: seq<Range>) returns (out: seq<Range>)
    requires WellFormed(ranges)
    ensures Separated(out) && SameCover(out, ranges)
  {
    if |ranges| <= 1 {
      return ranges;
    }
    out := MergeSorted(Sorted(ranges));
    MergedSortIsMerge(ranges);
  }

  /** The loop of mergeRanges over the sorted list. */
  method MergeSorted(sorted: seq<Range>) returns (out: seq<Range>)
    ensures out == MergeFirst(sorted, |sorted|)
  {
    out := [];
    for k := 0 to |sorted|
      invariant out == MergeFirst(sorted, k)
    {
      var r := sorted[k];
      if out == [] {
        out := out + [r];
      } else {
        var last := out[|out| - 1];
        if r.lo <= last.hi + 1 {
          if r.hi > last.hi {
            out := out[|out| - 1 := last.(hi := r.hi)];
          }
        } else {
          out := out + [r];
        }
      }
    }
  }

  /** Canonical form: separated ranges are determined by the addresses they cover. */
  lemma {:induction false} SeparatedIsCanonical(a: seq<Range>, b: seq<Range>)
    requires Separated(a) && Separated(b)
    requires SameCover(a, b)
    ensures a == b
    decreases |a|
  {
    if a == [] || b == [] {
      if a == [] { EmptyCover(a, b); } else { EmptyCover(b, a); }
    } else {
      FirstRange(a, b);
      FirstRange(b, a);
      TailsCoverTheSame(a, b);
      SeparatedIsCanonical(a[1..], b[1..]);
      assert a == [a[0]] + a[1..] && b == [b[0]] + b[1..];
    }
  }

  lemma TailsCoverTheSame(a: seq<Range>, b: seq<Range>)
    requires Separated(a) && Separated(b) && a != [] && b != []
    requires SameCover(a, b) && a[0] == b[0]
    ensures Separated(a[1..]) && Separated(b[1..]) && SameCover(a[1..], b[1..])
  {
    forall n ensures Covered(a[1..], n) <==> Covered(b[1..], n) {
      TailCovered(a, n);
      TailCovered(b, n);
    }
  }

  lemma EmptyCover(a: seq<Range>, b: seq<Range>)
    requires Separated(b) && SameCover(a, b) && a == []
    ensures b == []
  {
    if b != [] {
      FirstCovers(b, b[0].lo);
    }
  }

  /** The first range of a starts no lower than that of b, and is no longer. */
  lemma FirstRange(a: seq<Range>, b: seq<Range>)
    requires Separated(a) && Separated(b) && a != [] && b != []
    requires SameCover(a, b)
    ensures b[0].lo <= a[0].lo
    ensures a[0].lo == b[0].lo ==> a[0].hi <= b[0].hi
  {
    FirstCovers(a, a[0].lo);
    FirstCovers(a, b[0].hi + 1);
    AroundFirst(b, a[0].lo);
    AroundFirst(b, b[0].hi + 1);
  }

  lemma FirstCovers(a: seq<Range>, n: int)
    requires a != []
    ensures In(a[0], n) ==> Covered(a, n)
  {
    CoveredIff(a, n);
  }

  /** Nothing below the first range is covered, nor the address just after it. */
  lemma AroundFirst(b: seq<Range>, n: int)
    requires Separated(b) && b != []
    ensures n < b[0].lo || n == b[0].hi + 1 ==> !Covered(b, n)
  {
    CoveredIff(b, n);
  }

  lemma TailCovered(a: seq<Range>, n: int)
    requires Separated(a) && a != []
    ensures Covered(a[1..], n) <==> Covered(a, n) && !In(a[0], n)
  {
    CoveredIff(a, n);
    CoveredIff(a[1..], n);
    assert forall i :: 0 <= i < |a[1..]| ==> a[1..][i] == a[i + 1];
    if i :| 0 < i < |a| && In(a[i], n) {
      assert In(a[1..][i - 1], n);
    }
  }

  // ---- newIPv4Index and match ----------------------------------------------

  datatype Index = Index(ranges: seq<Range>)

  ghost predicate SomePrefixCovers(prefixes: seq<Prefix>, a: U32) {
    exists p :: p in prefixes && p.Covers(a)
  }

  /** What an index must be: separated ranges over exactly the covered addresses. */
  ghost predicate Indexes(idx: Index, prefixes: seq<Prefix>) {
    && Separated(idx.ranges)
    && forall a: U32 :: Covered(idx.ranges, a) <==> SomePrefixCovers(prefixes, a)
  }

  /** An IPv4 prefix with no valid length would panic in As4 after masking. */
  ghost predicate Indexable(prefixes: seq<Prefix>) {
    forall p :: p in prefixes && p.addr.V4? ==> p.IsValid()
  }

  method NewIPv4Index(prefixes: seq<Prefix>) returns (idx: Index)
    requires Indexable(prefixes)
    ensures Indexes(idx, prefixes)
  {
    var raw: seq<Range> := [];
    for k := 0 to |prefixes|
      invariant WellFormed(raw)
      invariant forall a: U32 :: Covered(raw, a) <==> SomePrefixCovers(prefixes[..k], a)
    {
      var p := prefixes[k];
      ghost var was := raw;
      assert p in prefixes;
      if p.addr.V4? {
        raw := raw + [PrefixToRange(p)];
      }
      forall a: U32 ensures Covered(raw, a) <==> SomePrefixCovers(prefixes[..k + 1], a) {
        if p.addr.V4? { AppendCovered(was, PrefixToRange(p), a); }
        OneMorePrefix(prefixes, k, a);
      }
    }
    assert prefixes[..|prefixes|] == prefixes;
    var merged := MergeRanges(raw);
    idx := Index(merged);
  }

  lemma OneMorePrefix(prefixes: seq<Prefix>, k: nat, a: U32)
    requires k < |prefixes|
    ensures SomePrefixCovers(prefixes[..k + 1], a) <==> SomePrefixCovers(prefixes[..k], a) || prefixes[k].Covers(a)
  {
    assert prefixes[..k + 1] == prefixes[..k] + [prefixes[k]];
    if SomePrefixCovers(prefixes[..k], a) {
      var p :| p in prefixes[..k] && p.Covers(a);
      assert p in prefixes[..k + 1];
    }
    if prefixes[k].Covers(a) { assert prefixes[k] in prefixes[..k + 1]; }
  }

  /** Two rule lists over the same addresses compile to the same index. */
  lemma IndexIsCanonical(x: Index, y: Index, ps: seq<Prefix>, qs: seq<Prefix>)
    requires Indexes(x, ps) && Indexes(y, qs)
    requires forall a: U32 :: SomePrefixCovers(ps, a) <==> SomePrefixCovers(qs, a)
    ensures x == y
  {
    forall n ensures Covered(x.ranges, n) <==> Covered(y.ranges, n) {
      CoveredIff(x.ranges, n);
      CoveredIff(y.ranges, n);
      if 0 <= n < WORD {
        var a: U32 := n;
        assert Covered(x.ranges, a) <==> SomePrefixCovers(ps, a);
      }
    }
    SeparatedIsCanonical(x.ranges, y.ranges);
  }

  /** match: binary search for the first range starting after the address, then
      one look at the range before it. */
  method Match(idx: Index, addr: Addr, ghost prefixes: seq<Prefix>) returns (found: bool)
    requires Indexes(idx, prefixes)
    ensures found <==> addr.Unmap().V4? && SomePrefixCovers(prefixes, addr.Unmap().u)
  {
    var a := addr.Unmap();
    if !a.V4? {
      return false;
    }
    var n := a.u;
    var i, j := 0, |idx.ranges|;
    while i < j
      invariant 0 <= i <= j <= |idx.ranges|
      invariant forall k :: 0 <= k < i ==> idx.ranges[k].lo <= n
      invariant forall k :: j <= k < |idx.ranges| ==> n < idx.ranges[k].lo
    {
      var h := (i + j) / 2;
      if idx.ranges[h].lo > n {
        j := h;
      } else {
        i := h + 1;
      }
    }
    found := i > 0 && n <= idx.ranges[i - 1].hi;
    CoveredIff(idx.ranges, n);
    assert found <==> exists k :: 0 <= k < |idx.ranges| && In(idx.ranges[k], n) by {
      if i > 0 { assert In(idx.ranges[i - 1], n) <==> found; }
    }
  }

  // ---- ParseIPv4Rule -------------------------------------------------------

  datatype RuleResult = Rule(prefix: Prefix) | RuleError

  /** ParseIPv4Rule on text with a slash, once the library has parsed it. */
  function RuleOfPrefix(parsed: Prefix): RuleResult
    requires parsed.IsValid()
  {
    var addr := parsed.addr.Unmap();
    if !addr.V4? then RuleError else Rule(PrefixFrom(addr, parsed.bits).Masked())
  }

  /** ParseIPv4Rule on text without a slash. */
  function RuleOfAddr(parsed: Addr): RuleResult {
    var addr := parsed.Unmap();
    if !addr.V4? then RuleError else Rule(PrefixFrom(addr, 32))
  }

  /** An accepted address is always a valid rule for that one address. */
  lemma AcceptedAddressIsValid(parsed: Addr)
    ensures RuleOfAddr(parsed).Rule? <==> parsed.Unmap().V4?
    ensures RuleOfAddr(parsed).Rule? ==>
              var p := RuleOfAddr(parsed).prefix;
              p.IsValid() && p.Masked() == p && forall a: U32 :: p.Covers(a) <==> V4(a) == parsed.Unmap()
  {
    if RuleOfAddr(parsed).Rule? {
      var p := RuleOfAddr(parsed).prefix;
      assert 32 - p.bits == 0 && Pow2(0) == 1;
    }
  }

  /** An accepted CIDR rule is a usable prefix exactly when its written length fits
      an IPv4 address. The other accepted rules, an IPv4-mapped network such as
      ::ffff:1.2.3.0/120, come out as the zero prefix, which covers nothing. */
  lemma AcceptedRuleIsValidIff(parsed: Prefix)
    requires parsed.IsValid() && RuleOfPrefix(parsed).Rule?
    ensures RuleOfPrefix(parsed).prefix.IsValid() <==> parsed.bits <= 32
    ensures parsed.bits > 32 ==> RuleOfPrefix(parsed) == Rule(NO_PREFIX)
    ensures parsed.addr.V4? ==> forall a: U32 :: RuleOfPrefix(parsed).prefix.Covers(a) <==> parsed.Covers(a)
  {
    var p := PrefixFrom(parsed.addr.Unmap(), parsed.bits);
    forall a: U32 ensures p.Masked().Covers(a) == p.Covers(a) { MaskedKeepsCover(p, a); }
  }

  /** The concrete rule ::ffff:1.2.3.0/120 is accepted and is not a valid prefix. */
  lemma MappedNetworkIsLost()
    ensures var parsed := Prefix(V6(0xFFFF * WORD + 0x01020300), 120);
            parsed.IsValid() && RuleOfPrefix(parsed) == Rule(NO_PREFIX)
  {
  }
}
