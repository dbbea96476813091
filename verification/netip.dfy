/** Addresses and prefixes as Go's `net/netip` hands them to the policy engine.
    An IPv4-mapped IPv6 address (::ffff:a.b.c.d) is a `V6` until `Unmap`. */
module Netip {

  const WORD: int := 0x1_0000_0000

  type U32 = x: int | 0 <= x < 0x1_0000_0000
  type U128 = x: int | 0 <= x < 0x1_0000_0000_0000_0000_0000_0000_0000_0000

  datatype Addr = NoAddr | V4(u: U32) | V6(w: U128) {
    function Unmap(): Addr {
      if V6? && w / WORD == 0xFFFF then V4(w % WORD) else this
    }
  }

  function Pow2(n: nat): (r: nat)
    ensures r > 0
  {
    if n == 0 then 1 else 2 * Pow2(n - 1)
  }

  /** `bits == -1` marks a prefix that is not valid, as in Go. */
  datatype Prefix = Prefix(addr: Addr, bits: int) {
    predicate IsValid() {
      (addr.V4? && 0 <= bits <= 32) || (addr.V6? && 0 <= bits <= 128)
    }

    /** Masked clears the host bits; an invalid prefix becomes the zero prefix. */
    function Masked(): Prefix {
      if !IsValid() then NO_PREFIX
      else if addr.V4? then Prefix(V4(ClearLow(addr.u, 32 - bits)), bits)
      else Prefix(V6(ClearLow(addr.w, 128 - bits)), bits)
    }

    /** An IPv4 address belongs to an IPv4 prefix when both have the same first
        `bits` bits (section 3.1 of RFC 4632). */
    predicate Covers(a: U32) {
      addr.V4? && 0 <= bits <= 32 && a / Pow2(32 - bits) == addr.u / Pow2(32 - bits)
    }
  }

  const NO_PREFIX := Prefix(NoAddr, -1)

  /** The constructor of Go's library: a bit count out of range makes the
      prefix invalid instead of failing. */
  function PrefixFrom(addr: Addr, bits: int): Prefix {
    if (addr.V4? && 0 <= bits <= 32) || (addr.V6? && 0 <= bits <= 128)
    then Prefix(addr, bits)
    else Prefix(addr, -1)
  }

  function ClearLow(x: nat, k: nat): (r: nat)
    ensures r <= x
  {
    BlockOf(x, Pow2(k))
  }

  /** The start of the block of size m that holds x. */
  function BlockOf(x: nat, m: nat): (r: nat)
    requires m > 0
    ensures r == x / m * m && r <= x < r + m
  {
    assert x == x / m * m + x % m;
    x / m * m
  }

  function Quotient(x: nat, m: nat): (q: nat)
    requires m > 0
    ensures q * m == BlockOf(x, m)
  {
    x / m
  }

  lemma MulMono(a: int, b: int, m: nat)
    requires a <= b
    ensures a * m <= b * m
  {
  }

  /** q is the quotient exactly when x lies in the q-th block of size m. */
  lemma QuotientIsBlock(x: nat, q: nat, m: nat)
    requires m > 0
    ensures x / m == q <==> q * m <= x < q * m + m
  {
    var t := x / m;
    assert BlockOf(x, m) == t * m;
    if t < q {
      MulMono(t + 1, q, m);
      assert (t + 1) * m == t * m + m;
    } else if q < t {
      MulMono(q + 1, t, m);
      assert (q + 1) * m == q * m + m;
    }
  }

  lemma {:induction false} MaskedKeepsCover(p: Prefix, a: U32)
    ensures p.Masked().Covers(a) == p.Covers(a)
    ensures p.Masked().Masked() == p.Masked()
    ensures p.Masked().IsValid() == p.IsValid()
  {
    if p.IsValid() {
      if p.addr.V4? {
        ClearLowKeepsQuotient(p.addr.u, 32 - p.bits);
      } else {
        ClearLowKeepsQuotient(p.addr.w, 128 - p.bits);
      }
    }
  }

  lemma ClearLowKeepsQuotient(x: nat, k: nat)
    ensures ClearLow(x, k) / Pow2(k) == x / Pow2(k)
    ensures ClearLow(ClearLow(x, k), k) == ClearLow(x, k)
  {
    QuotientIsBlock(ClearLow(x, k), x / Pow2(k), Pow2(k));
  }
}
