/** What each lease operation leaves in the table, row by row. */
module LeaseEffects {
  import opened Options
  import opened Sets
  import opened Instants
  import opened Domain
  import opened Leases

  // ---- transfer ------------------------------------------------------------

  /** A row of the client with the address, in whatever status. */
  predicate HasRow(t: Table, serverID: int, client: string, ip: string) {
    exists id :: id in t && IsRow(t[id], serverID, client, ip)
  }

  predicate IsRow(r: Row, serverID: int, client: string, ip: string) {
    r.serverID == serverID && r.clientID == client && r.ip == ip
  }

  /** The client has an active lease on the server. */
  predicate HasActive(t: Table, serverID: int, client: string) {
    exists id :: id in t && t[id].serverID == serverID && t[id].clientID == client && t[id].status == Allocated
  }

  lemma OneRowPerAddress(t: Table, serverID: int, client: string, ip: string, i: int, j: int)
    requires Consistent(t) && i in t && j in t && IsRow(t[i], serverID, client, ip) && IsRow(t[j], serverID, client, ip)
    ensures i == j
  {
  }

  /** Renaming breaks the constraint exactly when it gives a client its second active lease. */
  lemma RenamingClashesIff(t: Table, serverID: int, newClient: string, oldClient: string, ip: string, now: Time)
    requires Consistent(t)
    ensures !Consistent(Renamed(t, serverID, newClient, oldClient, ip, now))
            <==> newClient != oldClient && ActiveOwner(t, serverID, ip, oldClient) && HasActive(t, serverID, newClient)
  {
    var u := Renamed(t, serverID, newClient, oldClient, ip, now);
    RenamedKeepsIPs(t, serverID, newClient, oldClient, ip, now);
    if newClient != oldClient && ActiveOwner(t, serverID, ip, oldClient) && HasActive(t, serverID, newClient) {
      var i :| i in t && t[i].serverID == serverID && t[i].ip == ip && t[i].status == Allocated && t[i].clientID == oldClient;
      var j :| j in t && t[j].serverID == serverID && t[j].clientID == newClient && t[j].status == Allocated;
      assert Targets(t[i], serverID, oldClient, ip) && !Targets(t[j], serverID, oldClient, ip);
      assert i in u && j in u && SameActive(u[i], u[j]) && i != j;
    }
    if !UniqueActive(u) {
      var i, j :| i in u && j in u && SameActive(u[i], u[j]) && i != j;
      RenamedPair(t, serverID, newClient, oldClient, ip, now, i, j);
    }
  }

  lemma RenamedPair(t: Table, serverID: int, newClient: string, oldClient: string, ip: string, now: Time, i: int, j: int)
    requires Consistent(t) && i in t && j in t && i != j
    requires var u := Renamed(t, serverID, newClient, oldClient, ip, now); SameActive(u[i], u[j])
    ensures newClient != oldClient && ActiveOwner(t, serverID, ip, oldClient) && HasActive(t, serverID, newClient)
  {
    assert !SameActive(t[i], t[j]);
    if Targets(t[i], serverID, oldClient, ip) && Targets(t[j], serverID, oldClient, ip) {
      OneRowPerAddress(t, serverID, oldClient, ip, i, j);
    }
  }

  /** A transfer answers for missing parameters, for a client that does not have the
      address, and for a new client that already has an active lease; else the address is
      the new client's with everything else about the row, and no other row changes. */
  lemma TransferOutcome(t: Table, serverID: int, newClient: string, oldClient: string, ip: string, now: Time,
                        t': Table, r: TransferReply)
    requires Consistent(t) && TransferStep(t, serverID, newClient, oldClient, ip, now, t', r)
    ensures r == MissingParameters <==> newClient == "" || oldClient == "" || ip == ""
    ensures r == NotOwned <==> r != MissingParameters && !HasRow(t, serverID, oldClient, ip)
    ensures r == ConstraintViolated
            <==> r != MissingParameters && newClient != oldClient
                 && ActiveOwner(t, serverID, ip, oldClient) && HasActive(t, serverID, newClient)
    ensures r != Transferred ==> t' == t
    ensures r == Transferred ==>
              && t'.Keys == t.Keys
              && (forall id :: id in t && !IsRow(t[id], serverID, oldClient, ip) ==> t'[id] == t[id])
              && (forall id :: id in t && IsRow(t[id], serverID, oldClient, ip) ==>
                    t'[id] == t[id].(clientID := newClient, updatedAt := now))
  {
    RenamingClashesIff(t, serverID, newClient, oldClient, ip, now);
    if forall id :: id in t ==> !Targets(t[id], serverID, oldClient, ip) {
      assert !HasRow(t, serverID, oldClient, ip);
    } else {
      var id :| id in t && Targets(t[id], serverID, oldClient, ip);
      assert IsRow(t[id], serverID, oldClient, ip);
    }
  }

  /** So the active lease passes from the old client to the new. */
  lemma TransferMovesLease(t: Table, serverID: int, newClient: string, oldClient: string, ip: string, now: Time, t': Table)
    requires Consistent(t) && TransferStep(t, serverID, newClient, oldClient, ip, now, t', Transferred)
    ensures HasRow(t', serverID, newClient, ip)
    ensures ActiveOwner(t, serverID, ip, oldClient) ==> ActiveOwner(t', serverID, ip, newClient)
    ensures newClient != oldClient ==> !HasRow(t', serverID, oldClient, ip)
  {
    TransferOutcome(t, serverID, newClient, oldClient, ip, now, t', Transferred);
    var id :| id in t && IsRow(t[id], serverID, oldClient, ip);
    assert IsRow(t'[id], serverID, newClient, ip);
  }

  // ---- release -------------------------------------------------------------

  /** After a release no row of the server has the named client and address, and every row
      that has another server, client or address is the same. */
  lemma ReleaseOutcome(t: Table, serverID: int, client: string, ip: string, id: int)
    requires id in t
    ensures var t' := AfterRelease(t, serverID, client, ip);
            && t'.Keys <= t.Keys
            && (client == "" && ip == "" ==> t' == t)
            && (t[id].serverID != serverID || (client != "" && t[id].clientID != client) || (ip != "" && t[id].ip != ip) ==>
                  id in t' && t'[id] == t[id])
    ensures var t' := AfterRelease(t, serverID, client, ip);
            && (client != "" && ip != "" ==> !HasRow(t', serverID, client, ip))
            && (client == "" && ip != "" ==> forall k :: k in t' ==> !SameIP(t'[k], serverID, ip))
            && (client != "" && ip == "" ==> !HasActive(t', serverID, client))
  {
    assert client == "" && ip == "" ==> forall k :: k in t ==> !ReleasedBy(t[k], serverID, client, ip);
  }

  // ---- allocate ------------------------------------------------------------

  /** The text is a configured address or one of a row that is not released. */
  predicate Mentions(t: Table, serverID: int, config: seq<string>, s: string) {
    s in config || exists id :: id in t && t[id].serverID == serverID && t[id].status != Released && t[id].ip == s
  }

  lemma MentionedIff(t: Table, serverID: int, config: seq<string>, s: string)
    ensures s in Elements(config) + IPsOf(t, Blocking(t, serverID)) <==> Mentions(t, serverID, config, s)
  {
    if id :| id in t && t[id].serverID == serverID && t[id].status != Released && t[id].ip == s {
      assert id in Blocking(t, serverID);
    }
  }

  lemma TrimmedIff(texts: set<string>, x: string)
    ensures x in Trimmed(texts) <==> exists s :: s in texts && TrimSpace(s) == x
  {
  }

  /** The used set: what is mentioned, trimmed, if anything is left of it. */
  lemma UsedIPsIff(t: Table, serverID: int, config: seq<string>, x: string)
    ensures x in UsedIPs(t, serverID, config) <==> x != "" && exists s :: Mentions(t, serverID, config, s) && TrimSpace(s) == x
  {
    var all := Elements(config) + IPsOf(t, Blocking(t, serverID));
    forall s ensures s in all <==> Mentions(t, serverID, config, s) { MentionedIff(t, serverID, config, s); }
    TrimmedIff(all, x);
  }

  /** Over every run an allocation for a client with a name succeeds exactly when it has a
      lease or the allocator finds an address; a new lease is one new row of the client, and
      all rows stay. */
  lemma AllocateOutcome(run: seq<Move>, i: nat, within: (Subnet, string) -> bool)
    requires IsRun(run) && i < |run| && run[i].op.Allocate? && !run[i].op.who.Anonymous() && Chooses(run[i].op.next, within)
    ensures var t, t', op := run[i].pre, run[i].post, run[i].op;
            var choice := op.next(UsedIPs(t, op.serverID, op.config), op.net);
            && (op.allocReply.Leased? <==> HasLease(t, op.serverID, op.who) || choice.Some?)
            && (HasLease(t, op.serverID, op.who) ==> t' == t)
            && (!HasLease(t, op.serverID, op.who) && choice.Some? ==>
                  op.allocReply == Leased(choice.value)
                  && t' == t[run[i].newID := Row(op.serverID, op.who.Stored(), choice.value, Allocated, op.now, op.now)]
                  && run[i].newID !in t)
  {
    AllocationNeverCollides(run, i, within);
    assert Took(run[i]);
  }

  // ---- adopt ---------------------------------------------------------------

  /** An adoption changes only the row of the address and the active rows under the names it
      compares; those elsewhere become superseded. */
  lemma AdoptOutcome(t: Table, newID: int, serverID: int, who: Identity, ip: string, parses: bool, now: Time, t': Table,
                     ok: bool, id: int)
    requires Consistent(t) && Below(t, newID) && AdoptStep(t, newID, serverID, who, ip, parses, now, t', ok)
    requires id in t && !(t[id].serverID == serverID && t[id].ip == ip)
    ensures id in t'
    ensures t'[id] == t[id]
            || (&& t[id].serverID == serverID && t[id].status == Allocated && t[id].clientID in {who.Stored(), who.clientID}
                && t'[id] == t[id].(status := Superseded, updatedAt := now))
  {
  }
}
