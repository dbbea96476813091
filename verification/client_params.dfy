/** internal/database/migrations_legacy_alloc.go: the addresses that the stored parameters of
    a user connection name, and when a lease row matches one. */
module ClientParams {
  import opened Options
  import opened Domain
  import opened Leases

  /** The address functions of package net, with an address as its 128-bit value. */
  datatype Net = Net(parseCIDR: string -> Option<nat>, parseIP: string -> Option<nat>, text: nat -> string)

  /** A field of the decoded client_params object. */
  datatype Field = Absent | NotText | Text(value: string)

  datatype Params = Unreadable | Params(assignedIP: Field, address: Field)

  datatype Connection = Connection(id: string, serverID: int, clientID: string, params: Params)

  function ExtractIP(net: Net, f: Field): string {
    if !f.Text? then ""
    else
      var s := TrimSpace(f.value);
      if s == "" then ""
      else match net.parseCIDR(s)
        case Some(ip) => net.text(ip)
        case None =>
          match net.parseIP(s)
          case Some(ip) => net.text(ip)
          case None => s
  }

  predicate MatchAllocationIP(net: Net, a: string, b: string) {
    MatchTrimmed(net, TrimSpace(a), TrimSpace(b))
  }

  predicate MatchTrimmed(net: Net, a: string, b: string) {
    a != "" && b != "" && (a == b || (net.parseIP(a).Some? && net.parseIP(a) == net.parseIP(b)))
  }

  predicate Concerns(c: Connection, serverID: int, clientID: string) {
    c.serverID == serverID && (c.clientID == clientID || c.id == clientID)
  }

  function NonBlank(ip: string): seq<string> { if ip == "" then [] else [ip] }

  function Named(net: Net, c: Connection, serverID: int, clientID: string): seq<string> {
    if Concerns(c, serverID, clientID) then NamedIn(net, c.params) else []
  }

  function NamedIn(net: Net, p: Params): seq<string> {
    if p.Unreadable? then []
    else NonBlank(ExtractIP(net, p.assignedIP)) + NonBlank(ExtractIP(net, p.address))
  }

  function Candidates(net: Net, cs: seq<Connection>, serverID: int, clientID: string): seq<string> {
    if cs == [] then []
    else Candidates(net, cs[..|cs| - 1], serverID, clientID) + Named(net, cs[|cs| - 1], serverID, clientID)
  }

  // ---- what a candidate means ----------------------------------------------

  ghost predicate NamedBy(net: Net, c: Connection, serverID: int, clientID: string, ip: string) {
    && Concerns(c, serverID, clientID) && c.params.Params?
    && ( || MatchAllocationIP(net, ip, ExtractIP(net, c.params.assignedIP))
         || MatchAllocationIP(net, ip, ExtractIP(net, c.params.address)))
  }

  ghost predicate NamedBySome(net: Net, cs: seq<Connection>, serverID: int, clientID: string, ip: string) {
    exists n :: 0 <= n < |cs| && NamedBy(net, cs[n], serverID, clientID, ip)
  }

  lemma CandidatesOneMore(net: Net, cs: seq<Connection>, n: nat, serverID: int, clientID: string)
    requires n < |cs|
    ensures Candidates(net, cs[..n + 1], serverID, clientID)
            == Candidates(net, cs[..n], serverID, clientID) + Named(net, cs[n], serverID, clientID)
  {
    assert cs[..n + 1][..n] == cs[..n];
  }

  ghost predicate MatchesSome(net: Net, ip: string, cands: seq<string>) {
    exists k :: 0 <= k < |cands| && MatchAllocationIP(net, ip, cands[k])
  }

  lemma MatchInSum(net: Net, ip: string, a: seq<string>, b: seq<string>)
    ensures MatchesSome(net, ip, a + b) <==> MatchesSome(net, ip, a) || MatchesSome(net, ip, b)
  {
    if k :| 0 <= k < |b| && MatchAllocationIP(net, ip, b[k]) {
      assert (a + b)[|a| + k] == b[k];
    }
    if k :| 0 <= k < |a| && MatchAllocationIP(net, ip, a[k]) {
      assert (a + b)[k] == a[k];
    }
  }

  lemma BlankMatchesNothing(net: Net, ip: string)
    ensures !MatchAllocationIP(net, ip, "")
  {
  }

  lemma LastNames(net: Net, c: Connection, serverID: int, clientID: string, ip: string)
    ensures MatchesSome(net, ip, Named(net, c, serverID, clientID)) <==> NamedBy(net, c, serverID, clientID, ip)
  {
    BlankMatchesNothing(net, ip);
    if Concerns(c, serverID, clientID) && c.params.Params? {
      var a, b := ExtractIP(net, c.params.assignedIP), ExtractIP(net, c.params.address);
      MatchInSum(net, ip, NonBlank(a), NonBlank(b));
      OneNames(net, ip, a);
      OneNames(net, ip, b);
    }
  }

  lemma OneNames(net: Net, ip: string, a: string)
    ensures MatchesSome(net, ip, NonBlank(a)) <==> MatchAllocationIP(net, ip, a)
  {
    BlankMatchesNothing(net, ip);
    if a != "" {
      assert NonBlank(a)[0] == a;
    }
  }

  // ---- which connection a candidate comes from -------------------------------

  /** The i-th candidate is name `off` of connection n. */
  ghost predicate At(net: Net, cs: seq<Connection>, serverID: int, clientID: string, i: nat, n: nat, off: nat) {
    && n < |cs| && off < |Named(net, cs[n], serverID, clientID)|
    && i == |Candidates(net, cs[..n], serverID, clientID)| + off < |Candidates(net, cs, serverID, clientID)|
    && Candidates(net, cs, serverID, clientID)[i] == Named(net, cs[n], serverID, clientID)[off]
    && Concerns(cs[n], serverID, clientID) && cs[n].params.Params?
  }

  lemma {:induction false} Locate(net: Net, cs: seq<Connection>, serverID: int, clientID: string, i: nat) returns (n: nat, off: nat)
    requires i < |Candidates(net, cs, serverID, clientID)|
    ensures At(net, cs, serverID, clientID, i, n, off)
  {
    var last := |cs| - 1;
    var before := cs[..last];
    var k := |Candidates(net, before, serverID, clientID)|;
    if i < k {
      n, off := Locate(net, before, serverID, clientID, i);
      assert before[..n] == cs[..n] && before[n] == cs[n];
    } else {
      n, off := last, i - k;
    }
  }

  lemma {:induction false} CandidatesPrefix(net: Net, cs: seq<Connection>, serverID: int, clientID: string, n: nat)
    requires n <= |cs|
    ensures Candidates(net, cs[..n], serverID, clientID) <= Candidates(net, cs, serverID, clientID)
  {
    if n == |cs| {
      assert cs[..n] == cs;
    } else {
      var before := cs[..|cs| - 1];
      assert before[..n] == cs[..n];
      CandidatesPrefix(net, before, serverID, clientID, n);
    }
  }

  lemma NameAt(net: Net, cs: seq<Connection>, serverID: int, clientID: string, n: nat, off: nat)
    requires n < |cs| && off < |Named(net, cs[n], serverID, clientID)|
    ensures var i := |Candidates(net, cs[..n], serverID, clientID)| + off;
            i < |Candidates(net, cs, serverID, clientID)|
            && Candidates(net, cs, serverID, clientID)[i] == Named(net, cs[n], serverID, clientID)[off]
  {
    CandidatesOneMore(net, cs, n, serverID, clientID);
    CandidatesPrefix(net, cs, serverID, clientID, n + 1);
  }

  /** The candidates of a client match an address exactly when one of its connections
      names it. */
  lemma CandidatesAreNamed(net: Net, cs: seq<Connection>, serverID: int, clientID: string, ip: string)
    ensures MatchesSome(net, ip, Candidates(net, cs, serverID, clientID)) <==> NamedBySome(net, cs, serverID, clientID, ip)
  {
    if k: nat :| k < |Candidates(net, cs, serverID, clientID)|
                 && MatchAllocationIP(net, ip, Candidates(net, cs, serverID, clientID)[k]) {
      MatchedIsNamed(net, cs, serverID, clientID, ip, k);
    }
    if n: nat :| n < |cs| && NamedBy(net, cs[n], serverID, clientID, ip) {
      NamedIsMatched(net, cs, serverID, clientID, ip, n);
    }
  }

  lemma MatchedIsNamed(net: Net, cs: seq<Connection>, serverID: int, clientID: string, ip: string, k: nat)
    requires k < |Candidates(net, cs, serverID, clientID)|
    requires MatchAllocationIP(net, ip, Candidates(net, cs, serverID, clientID)[k])
    ensures NamedBySome(net, cs, serverID, clientID, ip)
  {
    var n, off := Locate(net, cs, serverID, clientID, k);
    LastNames(net, cs[n], serverID, clientID, ip);
    assert MatchAllocationIP(net, ip, Named(net, cs[n], serverID, clientID)[off]);
  }

  lemma NamedIsMatched(net: Net, cs: seq<Connection>, serverID: int, clientID: string, ip: string, n: nat)
    requires n < |cs| && NamedBy(net, cs[n], serverID, clientID, ip)
    ensures MatchesSome(net, ip, Candidates(net, cs, serverID, clientID))
  {
    LastNames(net, cs[n], serverID, clientID, ip);
    var off: nat :| off < |Named(net, cs[n], serverID, clientID)|
                    && MatchAllocationIP(net, ip, Named(net, cs[n], serverID, clientID)[off]);
    NameAt(net, cs, serverID, clientID, n, off);
  }

  /** The assigned address comes before the other one. */
  lemma NameOf(net: Net, cs: seq<Connection>, serverID: int, clientID: string, i: nat, n: nat, off: nat)
    requires At(net, cs, serverID, clientID, i, n, off)
    ensures var names := Candidates(net, cs, serverID, clientID);
            var first, other := ExtractIP(net, cs[n].params.assignedIP), ExtractIP(net, cs[n].params.address);
            && names[i] == (if off == 0 && first != "" then first else other)
            && (off > 0 ==> first != "" && off <= i && names[i - off] == first)
  {
    NamesInOrder(net, cs[n], serverID, clientID, off);
    if off > 0 { NameAt(net, cs, serverID, clientID, n, 0); }
  }

  lemma NamesInOrder(net: Net, c: Connection, serverID: int, clientID: string, off: nat)
    requires off < |Named(net, c, serverID, clientID)|
    ensures Concerns(c, serverID, clientID) && c.params.Params?
    ensures var names, first, other := Named(net, c, serverID, clientID), ExtractIP(net, c.params.assignedIP), ExtractIP(net, c.params.address);
            names[off] == (if off == 0 && first != "" then first else other)
            && (off > 0 ==> first != "" && names[0] == first)
  {
    PairInOrder(ExtractIP(net, c.params.assignedIP), ExtractIP(net, c.params.address), off);
  }

  lemma PairInOrder(first: string, other: string, off: nat)
    requires off < |NonBlank(first) + NonBlank(other)|
    ensures (NonBlank(first) + NonBlank(other))[off] == (if off == 0 && first != "" then first else other)
    ensures off > 0 ==> first != "" && (NonBlank(first) + NonBlank(other))[0] == first
  {
  }

  /** An address in CIDR form names the row with that address, however the row
      spells it. */
  lemma CIDRNamesItsAddress(net: Net, ip: string, value: string, addr: nat)
    requires net.parseIP(TrimSpace(ip)) == Some(addr) && TrimSpace(ip) != ""
    requires net.parseCIDR(TrimSpace(value)) == Some(addr) && TrimSpace(value) != ""
    requires var s := net.text(addr); s != "" && TrimSpace(s) == s && net.parseIP(s) == Some(addr)
    ensures MatchAllocationIP(net, ip, ExtractIP(net, Text(value)))
  {
  }
}
