/** internal/database/awg_ip_allocations.go: the lease table and the four operations on
    it. Each statement is atomic under the write lock; the table carries the two unique
    constraints of the schema. */
module Leases {
  import opened Options
  import opened Sets
  import opened Instants
  import opened Domain

  datatype Status = Allocated | Superseded | Released

  datatype Row = Row(serverID: int, clientID: string, ip: string, status: Status, createdAt: Time, updatedAt: Time)

  /** Rows by primary key. */
  type Table = map<int, Row>

  /** UNIQUE(server_id, ip). */
  ghost predicate UniqueIPs(t: Table) {
    forall i, j :: i in t && j in t && t[i].serverID == t[j].serverID && t[i].ip == t[j].ip ==> i == j
  }

  predicate SameActive(a: Row, b: Row) {
    && a.status == Allocated && b.status == Allocated
    && a.serverID == b.serverID && a.clientID == b.clientID
  }

  /** The partial unique index on (server_id, client_id) where status = 'allocated'. */
  ghost predicate UniqueActive(t: Table) {
    forall i, j :: i in t && j in t && SameActive(t[i], t[j]) ==> i == j
  }

  /** No operation writes an empty address, which the queries could not tell from none. */
  ghost predicate Addressed(t: Table) { forall id :: id in t ==> t[id].ip != "" }

  ghost predicate Consistent(t: Table) { UniqueIPs(t) && UniqueActive(t) }

  // ---- identities ----------------------------------------------------------

  /** The two names a caller goes by, trimmed; either may be empty. */
  datatype Identity = Identity(clientID: string, pubKey: string) {
    function Stored(): string { if pubKey == "" then clientID else pubKey }

    predicate Anonymous() { clientID == "" && pubKey == "" }

    /** The names that count as this client, as the ownership checks compare them. */
    predicate Is(owner: string) {
      (clientID != "" && owner == clientID) || (pubKey != "" && owner == pubKey)
    }
  }

  function Identify(clientID: string, pubKey: string): Identity {
    Identity(TrimSpace(clientID), TrimSpace(pubKey))
  }

  lemma TrimIsIdempotent(s: string)
    ensures TrimSpace(TrimSpace(s)) == TrimSpace(s)
  {
    TrimSpaceKeeps(TrimSpace(s));
  }

  // ---- the queries ---------------------------------------------------------

  predicate Holds(r: Row, serverID: int, who: Identity) {
    r.serverID == serverID && r.status == Allocated && who.Is(r.clientID)
  }

  predicate Leases(t: Table, serverID: int, who: Identity, ip: string) {
    exists id :: id in t && Holds(t[id], serverID, who) && t[id].ip == ip
  }

  predicate HasLease(t: Table, serverID: int, who: Identity) {
    exists id :: id in t && Holds(t[id], serverID, who)
  }

  /** Whose active lease an address is. */
  ghost predicate ActiveOwner(t: Table, serverID: int, ip: string, owner: string) {
    exists id :: id in t && t[id].serverID == serverID && t[id].ip == ip
                 && t[id].status == Allocated && t[id].clientID == owner
  }

  /** Rows whose address the allocator must avoid on a server. */
  predicate Blocks(r: Row, serverID: int) { r.serverID == serverID && r.status != Released }

  /** The used set handed to the allocator: trimmed, without empty entries. */
  ghost function UsedIPs(t: Table, serverID: int, config: seq<string>): set<string> {
    Trimmed(Elements(config) + IPsOf(t, Blocking(t, serverID))) - {""}
  }

  function Blocking(t: Table, serverID: int): set<int> { set id | id in t && Blocks(t[id], serverID) }

  ghost function IPsOf(t: Table, ids: set<int>): set<string> {
    set id | id in ids && id in t :: t[id].ip
  }

  ghost function Trimmed(ips: set<string>): set<string> {
    set s | s in ips :: TrimSpace(s)
  }

  /** The network a server gives out addresses of. */
  datatype Subnet = Subnet(addr: string, cidr: int, gateway: string)

  /** awg.GetNextIP: the next address text, or none when the subnet is exhausted. */
  type Allocator = (set<string>, Subnet) -> Option<string>

  /** Its contract: an address of the subnet without blanks, neither used nor the gateway. */
  ghost predicate Chooses(next: Allocator, within: (Subnet, string) -> bool) {
    forall used, net :: next(used, net).Some? ==>
      var ip := next(used, net).value;
      ip !in used && ip != net.gateway && within(net, ip) && ip != "" && TrimSpace(ip) == ip
  }

  /** Inserting an active row meets neither constraint. */
  ghost predicate Insertable(t: Table, serverID: int, clientID: string, ip: string) {
    forall id :: id in t ==> !Clashes(t[id], serverID, clientID, ip)
  }

  predicate Clashes(r: Row, serverID: int, clientID: string, ip: string) {
    r.serverID == serverID && (r.ip == ip || (r.status == Allocated && r.clientID == clientID))
  }

  // ---- the specification of each operation ---------------------------------

  datatype AllocReply = Leased(ip: string) | Exhausted | TooManyCollisions

  ghost predicate AllocateStep(t: Table, newID: int, serverID: int, who: Identity, config: seq<string>,
                               net: Subnet, next: Allocator, now: Time, t': Table, r: AllocReply)
  {
    if HasLease(t, serverID, who) then
      t' == t && r.Leased? && Leases(t, serverID, who, r.ip)
    else
      match next(UsedIPs(t, serverID, config), net)
      case None => t' == t && r == Exhausted
      case Some(ip) =>
        if Insertable(t, serverID, who.Stored(), ip) then
          r == Leased(ip) && t' == t[newID := Row(serverID, who.Stored(), ip, Allocated, now, now)]
        else t' == t && r == TooManyCollisions
  }

  /** The rows adopt retires: active ones under the stored name or the client's name. */
  predicate Retires(r: Row, serverID: int, who: Identity) {
    r.serverID == serverID && r.status == Allocated && (r.clientID == who.Stored() || r.clientID == who.clientID)
  }

  function Superseding(t: Table, serverID: int, who: Identity, now: Time): Table {
    map id | id in t :: if Retires(t[id], serverID, who) then t[id].(status := Superseded, updatedAt := now) else t[id]
  }

  predicate SameIP(r: Row, serverID: int, ip: string) { r.serverID == serverID && r.ip == ip }

  /** Inserts an active row, or makes the row of that address active for the client. */
  ghost predicate Upserted(t: Table, newID: int, serverID: int, clientID: string, ip: string, now: Time, t': Table) {
    || (exists id :: id in t && SameIP(t[id], serverID, ip)
                     && t' == t[id := t[id].(clientID := clientID, status := Allocated, updatedAt := now)])
    || ((forall id :: id in t ==> !SameIP(t[id], serverID, ip))
        && t' == t[newID := Row(serverID, clientID, ip, Allocated, now, now)])
  }

  /** `ip` is trimmed, and `parses` says whether it is an address. */
  ghost predicate AdoptStep(t: Table, newID: int, serverID: int, who: Identity, ip: string, parses: bool, now: Time,
                            t': Table, ok: bool)
  {
    if ip == "" || !parses || who.Anonymous() then t' == t && !ok
    else if exists id :: id in t && SameIP(t[id], serverID, ip) && t[id].status == Allocated then
      && t' == t
      && (ok <==> exists owner :: ActiveOwner(t, serverID, ip, owner) && who.Is(TrimSpace(owner)))
    else ok && Upserted(Superseding(t, serverID, who, now), newID, serverID, who.Stored(), ip, now, t')
  }

  datatype TransferReply = Transferred | MissingParameters | NotOwned | ConstraintViolated

  predicate Targets(r: Row, serverID: int, clientID: string, ip: string) {
    r.serverID == serverID && r.clientID == clientID && r.ip == ip
  }

  function Renamed(t: Table, serverID: int, newClient: string, oldClient: string, ip: string, now: Time): Table {
    map id | id in t :: if Targets(t[id], serverID, oldClient, ip)
                        then t[id].(clientID := newClient, updatedAt := now) else t[id]
  }

  ghost predicate TransferStep(t: Table, serverID: int, newClient: string, oldClient: string, ip: string, now: Time,
                               t': Table, r: TransferReply)
  {
    if newClient == "" || oldClient == "" || ip == "" then t' == t && r == MissingParameters
    else
      var next := Renamed(t, serverID, newClient, oldClient, ip, now);
      if !Consistent(next) then t' == t && r == ConstraintViolated
      else if forall id :: id in t ==> !Targets(t[id], serverID, oldClient, ip) then t' == t && r == NotOwned
      else t' == next && r == Transferred
  }

  predicate ReleasedBy(r: Row, serverID: int, clientID: string, ip: string) {
    && (clientID != "" || ip != "")
    && r.serverID == serverID
    && (clientID != "" ==> r.clientID == clientID)
    && (ip != "" ==> r.ip == ip)
  }

  function AfterRelease(t: Table, serverID: int, clientID: string, ip: string): Table {
    map id | id in t && !ReleasedBy(t[id], serverID, clientID, ip) :: t[id]
  }

  // ---- runs ----------------------------------------------------------------

  datatype Op =
    | Allocate(serverID: int, who: Identity, config: seq<string>, net: Subnet, next: Allocator, now: Time, allocReply: AllocReply)
    | Adopt(serverID: int, who: Identity, ip: string, parses: bool, now: Time, ok: bool)
    | Transfer(serverID: int, newClient: string, oldClient: string, ip: string, now: Time, transferReply: TransferReply)
    | Release(serverID: int, clientID: string, ip: string)

  /** One operation on the table; `newID` is the next primary key. */
  ghost predicate Step(t: Table, newID: int, op: Op, t': Table) {
    match op
    case Allocate(serverID, who, config, net, next, now, r) =>
      AllocateStep(t, newID, serverID, who, config, net, next, now, t', r)
    case Adopt(serverID, who, ip, parses, now, ok) => AdoptStep(t, newID, serverID, who, ip, parses, now, t', ok)
    case Transfer(serverID, newClient, oldClient, ip, now, r) => TransferStep(t, serverID, newClient, oldClient, ip, now, t', r)
    case Release(serverID, clientID, ip) => t' == AfterRelease(t, serverID, clientID, ip)
  }

  /** Keys come from a counter that never goes back. */
  ghost predicate Below(t: Table, newID: int) { forall id :: id in t ==> id < newID }

  datatype Move = Move(pre: Table, newID: int, op: Op, post: Table)

  ghost predicate Took(m: Move) {
    Below(m.pre, m.newID) && Step(m.pre, m.newID, m.op, m.post)
  }

  ghost predicate IsRun(run: seq<Move>) {
    && (forall i {:trigger Took(run[i])} :: 0 <= i < |run| ==> Took(run[i]))
    && (forall i {:trigger run[i].pre} :: 0 < i < |run| ==> run[i].pre == run[i - 1].post)
    && (run != [] ==> run[0].pre == map[])
  }

  // ---- the constraints are kept, and never met by allocate and adopt --------

  lemma InsertKeeps(t: Table, newID: int, row: Row)
    requires Consistent(t) && Below(t, newID) && Insertable(t, row.serverID, row.clientID, row.ip)
    ensures Consistent(t[newID := row])
  {
  }

  /** After superseding, no active row is left under the stored name. */
  lemma SupersedingFrees(t: Table, serverID: int, who: Identity, now: Time)
    requires Consistent(t)
    ensures var u := Superseding(t, serverID, who, now);
            && Consistent(u)
            && forall id :: id in u ==> !(u[id].serverID == serverID && u[id].status == Allocated && u[id].clientID == who.Stored())
  {
  }

  /** So the upsert of adopt meets neither constraint, and its duplicate-key branch is
      never taken. */
  lemma AdoptKeeps(t: Table, newID: int, serverID: int, who: Identity, ip: string, now: Time, t': Table)
    requires Consistent(t) && Below(t, newID)
    requires forall id :: id in t && SameIP(t[id], serverID, ip) ==> t[id].status != Allocated
    requires Upserted(Superseding(t, serverID, who, now), newID, serverID, who.Stored(), ip, now, t')
    ensures Consistent(t')
  {
    SupersedingFrees(t, serverID, who, now);
  }

  lemma StepKeepsConstraints(t: Table, newID: int, op: Op, t': Table)
    requires Consistent(t) && Below(t, newID) && Step(t, newID, op, t')
    ensures Consistent(t')
  {
    match op
    case Adopt(serverID, who, ip, parses, now, ok) =>
      if t' != t { AdoptKeeps(t, newID, serverID, who, ip, now, t'); }
    case _ =>
  }

  /** Over every run, each address of a server has one row and each client of a server
      at most one active row. */
  lemma {:induction false} AlwaysConsistent(run: seq<Move>, i: nat)
    requires IsRun(run) && i < |run|
    ensures Consistent(run[i].pre) && Consistent(run[i].post)
  {
    if i > 0 { AlwaysConsistent(run, i - 1); }
    assert Took(run[i]);
    StepKeepsConstraints(run[i].pre, run[i].newID, run[i].op, run[i].post);
  }

  // ---- who owns an address -------------------------------------------------

  /** The operations that may take the active lease of ip away from owner: a release that
      names it, a transfer of it, or an adoption by the owner itself (an adoption with
      an empty client name also counts as one by the owner with the empty name). */
  ghost predicate Disturbs(op: Op, serverID: int, ip: string, owner: string) {
    match op
    case Allocate(_, _, _, _, _, _, _) => false
    case Adopt(s, who, _, _, _, _) => s == serverID && (owner == who.Stored() || owner == who.clientID)
    case Transfer(s, newClient, oldClient, i, _, _) => s == serverID && oldClient == owner && i == ip && newClient != owner
    case Release(s, clientID, i) =>
      s == serverID && (clientID != "" || i != "") && (clientID == "" || clientID == owner) && (i == "" || i == ip)
  }

  /** Nothing else takes it: neither allocate, nor an adoption by another client. */
  lemma OwnerStays(t: Table, newID: int, op: Op, t': Table, serverID: int, ip: string, owner: string)
    requires Consistent(t) && Below(t, newID) && Step(t, newID, op, t')
    requires ActiveOwner(t, serverID, ip, owner) && !Disturbs(op, serverID, ip, owner)
    ensures ActiveOwner(t', serverID, ip, owner)
  {
    var id :| id in t && t[id].serverID == serverID && t[id].ip == ip && t[id].status == Allocated && t[id].clientID == owner;
    match op
    case Adopt(s, who, i, parses, now, ok) =>
      if t' != t {
        assert id in Superseding(t, s, who, now) && Superseding(t, s, who, now)[id] == t[id];
        assert id in t' && t'[id] == t[id];
      }
    case _ => assert id in t' && t'[id].(updatedAt := 0) == t[id].(updatedAt := 0);
  }

  lemma {:induction false} OwnerStaysOverRun(run: seq<Move>, i: nat, j: nat, serverID: int, ip: string, owner: string)
    requires IsRun(run) && i < j < |run| && ActiveOwner(run[i].post, serverID, ip, owner)
    requires forall k :: i < k < j ==> !Disturbs(run[k].op, serverID, ip, owner)
    ensures ActiveOwner(run[j].pre, serverID, ip, owner)
  {
    if i + 1 < j {
      OwnerStaysOverRun(run, i, j - 1, serverID, ip, owner);
      AlwaysConsistent(run, j - 1);
      assert Took(run[j - 1]) && !Disturbs(run[j - 1].op, serverID, ip, owner);
      OwnerStays(run[j - 1].pre, run[j - 1].newID, run[j - 1].op, run[j - 1].post, serverID, ip, owner);
    }
  }

  /** An address has one active owner. */
  lemma OneOwner(t: Table, serverID: int, ip: string, a: string, b: string)
    requires Consistent(t) && ActiveOwner(t, serverID, ip, a) && ActiveOwner(t, serverID, ip, b)
    ensures a == b
  {
  }

  /** A lease once active belongs to that client until it is released, transferred or
      given up: at any later point of an undisturbed run no other client has it. */
  lemma LeaseIsExclusive(run: seq<Move>, i: nat, j: nat, serverID: int, ip: string, owner: string, other: string)
    requires IsRun(run) && i < j < |run| && ActiveOwner(run[i].post, serverID, ip, owner)
    requires forall k :: i < k < j ==> !Disturbs(run[k].op, serverID, ip, owner)
    ensures ActiveOwner(run[j].pre, serverID, ip, other) <==> other == owner
  {
    OwnerStaysOverRun(run, i, j, serverID, ip, owner);
    AlwaysConsistent(run, j);
    if ActiveOwner(run[j].pre, serverID, ip, other) {
      OneOwner(run[j].pre, serverID, ip, owner, other);
    }
  }

  // ---- allocate ------------------------------------------------------------

  /** The address handed out is the caller's, and was nobody else's. */
  lemma AllocateIsSafe(t: Table, newID: int, serverID: int, who: Identity, config: seq<string>, net: Subnet,
                       next: Allocator, now: Time, t': Table, ip: string) returns (owner: string)
    requires Consistent(t) && Below(t, newID)
    requires AllocateStep(t, newID, serverID, who, config, net, next, now, t', Leased(ip))
    ensures ActiveOwner(t', serverID, ip, owner)
    ensures who.Is(owner) || (who.Anonymous() && owner == "")
    ensures forall c :: ActiveOwner(t, serverID, ip, c) ==> c == owner
  {
    if HasLease(t, serverID, who) {
      var id :| id in t && Holds(t[id], serverID, who) && t[id].ip == ip;
      owner := t[id].clientID;
      forall c | ActiveOwner(t, serverID, ip, c) ensures c == owner { OneOwner(t, serverID, ip, c, owner); }
    } else {
      owner := who.Stored();
      assert newID in t' && t'[newID].ip == ip;
    }
  }

  /** A new lease is an address of the subnet, not the gateway, that neither the server's
      configuration nor any row of the server had. */
  lemma NewLeaseIsFree(t: Table, newID: int, serverID: int, who: Identity, config: seq<string>, net: Subnet,
                       next: Allocator, within: (Subnet, string) -> bool, now: Time, t': Table, ip: string)
    requires Chooses(next, within) && !HasLease(t, serverID, who)
    requires AllocateStep(t, newID, serverID, who, config, net, next, now, t', Leased(ip))
    ensures within(net, ip) && ip != net.gateway
    ensures forall c :: c in config ==> TrimSpace(c) != ip
    ensures forall id :: id in t ==> !SameIP(t[id], serverID, ip)
  {
    forall c | c in config ensures TrimSpace(c) != ip {
      if TrimSpace(c) != "" { ConfigIsUsed(t, serverID, config, c, TrimSpace(c)); }
    }
  }

  lemma ConfigIsUsed(t: Table, serverID: int, config: seq<string>, c: string, trimmed: string)
    requires c in config && trimmed == TrimSpace(c) && trimmed != ""
    ensures trimmed in UsedIPs(t, serverID, config)
  {
    assert c in Elements(config);
  }

  /** Nothing but these takes the lease of an address from a client with those names. */
  ghost predicate DisturbsClient(op: Op, serverID: int, ip: string, who: Identity) {
    Disturbs(op, serverID, ip, who.clientID) || Disturbs(op, serverID, ip, who.pubKey)
  }

  /** A repeated allocation for a client with a name returns an address leased to it and
      leaves the table alone, whatever undisturbing operations run in between. */
  lemma RepeatAllocateIsIdempotent(run: seq<Move>, i: nat, j: nat, ip: string)
    requires IsRun(run) && i < j < |run| && run[i].op.Allocate? && run[j].op.Allocate?
    requires run[i].op.allocReply == Leased(ip) && !run[i].op.who.Anonymous()
    requires run[j].op.serverID == run[i].op.serverID && run[j].op.who == run[i].op.who
    requires forall k :: i < k < j ==> !DisturbsClient(run[k].op, run[i].op.serverID, ip, run[i].op.who)
    ensures run[j].post == run[j].pre && run[j].op.allocReply.Leased?
    ensures Leases(run[j].pre, run[j].op.serverID, run[j].op.who, run[j].op.allocReply.ip)
    ensures Leases(run[j].pre, run[j].op.serverID, run[j].op.who, ip)
  {
    var s, who := run[i].op.serverID, run[i].op.who;
    AlwaysConsistent(run, i);
    var owner := AllocatedAt(run, i, ip);
    assert forall k :: i < k < j ==> !DisturbsClient(run[k].op, s, ip, who) && !Disturbs(run[k].op, s, ip, owner);
    OwnerStaysOverRun(run, i, j, s, ip, owner);
    OwnedIsLeased(run[j].pre, s, ip, owner, who);
    AllocateReuses(run[j], s, who);
  }

  lemma AllocatedAt(run: seq<Move>, i: nat, ip: string) returns (owner: string)
    requires IsRun(run) && i < |run| && run[i].op.Allocate? && run[i].op.allocReply == Leased(ip)
    ensures var op := run[i].op;
            ActiveOwner(run[i].post, op.serverID, ip, owner) && (op.who.Is(owner) || (op.who.Anonymous() && owner == ""))
  {
    AlwaysConsistent(run, i);
    assert Took(run[i]);
    var m, op := run[i], run[i].op;
    owner := AllocateIsSafe(m.pre, m.newID, op.serverID, op.who, op.config, op.net, op.next, op.now, m.post, ip);
  }

  lemma OwnedIsLeased(t: Table, serverID: int, ip: string, owner: string, who: Identity)
    requires ActiveOwner(t, serverID, ip, owner) && who.Is(owner)
    ensures Leases(t, serverID, who, ip) && HasLease(t, serverID, who)
  {
    var id :| id in t && t[id].serverID == serverID && t[id].ip == ip && t[id].status == Allocated && t[id].clientID == owner;
    assert Holds(t[id], serverID, who);
  }

  lemma AllocateReuses(m: Move, serverID: int, who: Identity)
    requires Took(m) && m.op.Allocate? && m.op.serverID == serverID && m.op.who == who && HasLease(m.pre, serverID, who)
    ensures m.post == m.pre && m.op.allocReply.Leased? && Leases(m.pre, serverID, who, m.op.allocReply.ip)
  {
  }

  lemma BlockingIsUsed(t: Table, serverID: int, config: seq<string>)
    ensures forall id :: id in t && Blocks(t[id], serverID) && TrimSpace(t[id].ip) != "" ==>
              TrimSpace(t[id].ip) in UsedIPs(t, serverID, config)
  {
  }

  /** A client with a name gets its address at the first of the fifty tries exactly when
      the chosen address is not that of a released row: released rows are left out of the
      used set, but their address is still taken by the unique constraint. */
  lemma FirstTrySucceedsIff(t: Table, serverID: int, who: Identity, config: seq<string>, net: Subnet,
                            next: Allocator, within: (Subnet, string) -> bool, ip: string)
    requires Consistent(t) && !who.Anonymous() && Chooses(next, within) && !HasLease(t, serverID, who)
    requires next(UsedIPs(t, serverID, config), net) == Some(ip)
    ensures Insertable(t, serverID, who.Stored(), ip)
            <==> !exists id :: id in t && SameIP(t[id], serverID, ip) && t[id].status == Released
  {
    BlockingIsUsed(t, serverID, config);
    assert forall id :: id in t && SameIP(t[id], serverID, ip) ==> TrimSpace(t[id].ip) == ip;
    forall id | id in t && t[id].serverID == serverID && t[id].status == Allocated ensures t[id].clientID != who.Stored() {
      assert !Holds(t[id], serverID, who);
    }
  }

  ghost predicate NoneReleased(t: Table) { forall id :: id in t ==> t[id].status != Released }

  /** No operation writes a released row. */
  lemma {:induction false} NeverReleased(run: seq<Move>, i: nat)
    requires IsRun(run) && i < |run|
    ensures NoneReleased(run[i].pre) && NoneReleased(run[i].post)
  {
    if i > 0 { NeverReleased(run, i - 1); }
    assert Took(run[i]);
    StepReleasesNone(run[i]);
  }

  lemma StepReleasesNone(m: Move)
    requires Took(m) && NoneReleased(m.pre)
    ensures NoneReleased(m.post)
  {
  }

  /** So over every run the fifty tries are never needed: an allocation for a client with
      a name gets an address at the first, or the subnet is exhausted. */
  lemma AllocationNeverCollides(run: seq<Move>, i: nat, within: (Subnet, string) -> bool)
    requires IsRun(run) && i < |run| && run[i].op.Allocate? && !run[i].op.who.Anonymous()
    requires Chooses(run[i].op.next, within)
    ensures run[i].op.allocReply != TooManyCollisions
  {
    AlwaysConsistent(run, i);
    NeverReleased(run, i);
    assert Took(run[i]);
    var t, op := run[i].pre, run[i].op;
    var choice := op.next(UsedIPs(t, op.serverID, op.config), op.net);
    if !HasLease(t, op.serverID, op.who) && choice.Some? {
      FirstTrySucceedsIff(t, op.serverID, op.who, op.config, op.net, op.next, within, choice.value);
    }
  }

  /** A table with a released row, which only restored data can hold, and an allocator
      within its contract for which every one of the fifty tries fails. */
  lemma ReleasedRowBlocks() returns (t: Table, next: Allocator, within: (Subnet, string) -> bool)
    ensures Consistent(t) && Chooses(next, within)
    ensures forall newID: int, now: Time, t': Table, r ::
              AllocateStep(t, newID, 1, Identity("new", ""), [], Subnet("10.0.0.0", 24, "10.0.0.1"), next, now, t', r)
              ==> r == TooManyCollisions
  {
    t := map[1 := Row(1, "old", "10.0.0.2", Released, 0, 0)];
    next := (used, net: Subnet) => if "10.0.0.2" in used || net.gateway == "10.0.0.2" then None else Some("10.0.0.2");
    within := (net, ip) => true;
    TrimSpaceKeeps("10.0.0.2");
    assert Blocking(t, 1) == {};
    assert UsedIPs(t, 1, []) == {};
    assert "10.0.0.2"[7] != "10.0.0.1"[7];
    assert Clashes(t[1], 1, "new", "10.0.0.2");
  }

  /** With two empty names an allocation fails as long as an earlier one lasts. */
  lemma AnonymousCollides(run: seq<Move>, i: nat, j: nat, ip: string)
    requires IsRun(run) && i < j < |run| && run[i].op.Allocate? && run[j].op.Allocate?
    requires run[i].op.who == Identity("", "") && run[j].op.who == Identity("", "")
    requires run[i].op.serverID == run[j].op.serverID && run[i].op.allocReply == Leased(ip)
    requires forall k :: i < k < j ==> !Disturbs(run[k].op, run[i].op.serverID, ip, "")
    ensures run[j].post == run[j].pre && !run[j].op.allocReply.Leased?
  {
    var owner := AllocatedAt(run, i, ip);
    OwnerStaysOverRun(run, i, j, run[i].op.serverID, ip, "");
    assert Took(run[j]);
    AnonymousFails(run[j], ip);
  }

  lemma AnonymousFails(m: Move, ip: string)
    requires Took(m) && m.op.Allocate? && m.op.who == Identity("", "") && ActiveOwner(m.pre, m.op.serverID, ip, "")
    ensures m.post == m.pre && !m.op.allocReply.Leased?
  {
    var id :| id in m.pre && m.pre[id].serverID == m.op.serverID && m.pre[id].status == Allocated && m.pre[id].clientID == "";
    assert forall other :: Clashes(m.pre[id], m.op.serverID, "", other);
  }

  // ---- adopt ---------------------------------------------------------------

  /** An adoption is refused exactly when the address or the client is not named or the
      address is another client's; then nothing changes. Otherwise the address is the
      client's active lease afterwards. */
  lemma AdoptIsSafe(t: Table, newID: int, serverID: int, who: Identity, ip: string, parses: bool, now: Time, t': Table, ok: bool)
    requires Consistent(t) && Below(t, newID) && AdoptStep(t, newID, serverID, who, ip, parses, now, t', ok)
    requires who == Identify(who.clientID, who.pubKey)
    ensures !ok <==> ip == "" || !parses || who.Anonymous() || ClaimedByOther(t, serverID, ip, who)
    ensures !ok ==> t' == t
    ensures ok ==> exists owner :: ActiveOwner(t', serverID, ip, owner) && who.Is(TrimSpace(owner))
    ensures ok && t' != t ==> ActiveOwner(t', serverID, ip, who.Stored())
  {
    if ip == "" || !parses || who.Anonymous() {
    } else if id :| id in t && SameIP(t[id], serverID, ip) && t[id].status == Allocated {
      assert ActiveOwner(t, serverID, ip, t[id].clientID);
      forall owner | ActiveOwner(t, serverID, ip, owner) ensures owner == t[id].clientID {
        OneOwner(t, serverID, ip, owner, t[id].clientID);
      }
    } else {
      UpsertedIsActive(Superseding(t, serverID, who, now), newID, serverID, who.Stored(), ip, now, t');
    }
  }

  lemma UpsertedIsActive(t: Table, newID: int, serverID: int, clientID: string, ip: string, now: Time, t': Table)
    requires Upserted(t, newID, serverID, clientID, ip, now, t')
    ensures ActiveOwner(t', serverID, ip, clientID)
  {
    if id :| id in t && SameIP(t[id], serverID, ip) && t' == t[id := t[id].(clientID := clientID, status := Allocated, updatedAt := now)] {
      assert id in t' && t'[id].clientID == clientID;
    } else {
      assert newID in t' && t'[newID].clientID == clientID;
    }
  }

  /** An adoption that takes effect leaves the active row of a client that is not the
      caller alone, unless the caller gives no client name and the row has none either:
      then that lease is superseded with the caller's own. */
  lemma AdoptSparesOthersIff(t: Table, newID: int, serverID: int, who: Identity, ip: string, now: Time, t': Table, id: int)
    requires Consistent(t) && Below(t, newID) && !who.Anonymous() && ip != ""
    requires forall k :: k in t && SameIP(t[k], serverID, ip) ==> t[k].status != Allocated
    requires AdoptStep(t, newID, serverID, who, ip, true, now, t', true)
    requires id in t && t[id].serverID == serverID && t[id].status == Allocated && !who.Is(t[id].clientID)
    ensures id in t' && (t'[id] == t[id] <==> !(who.clientID == "" && t[id].clientID == ""))
  {
    assert t[id].ip != ip;
  }

  /** The case: a key without a client name adopts an address and ends the lease of the
      client without a name. */
  lemma AdoptTakesNamelessLease() returns (t: Table, t': Table)
    ensures Consistent(t) && ActiveOwner(t, 1, "10.0.0.2", "")
    ensures AdoptStep(t, 2, 1, Identity("", "key"), "10.0.0.3", true, 9, t', true)
    ensures !ActiveOwner(t', 1, "10.0.0.2", "")
  {
    t := map[1 := Row(1, "", "10.0.0.2", Allocated, 0, 0)];
    assert 1 in t;
    var u := Superseding(t, 1, Identity("", "key"), 9);
    assert u == map[1 := Row(1, "", "10.0.0.2", Superseded, 0, 9)];
    assert "10.0.0.2"[7] != "10.0.0.3"[7];
    t' := u[2 := Row(1, "key", "10.0.0.3", Allocated, 9, 9)];
  }

  // ---- the table as an object ----------------------------------------------

  class LeaseDB {
    var rows: Table
    var nextID: int

    ghost predicate Valid()
      reads this
    {
      Consistent(rows) && Below(rows, nextID) && Addressed(rows)
    }

    constructor ()
      ensures Valid() && rows == map[]
    {
      rows, nextID := map[], 1;
    }

    /** The address of any active row under one of the names. */
    method FindExistingAllocation(serverID: int, who: Identity) returns (ip: string)
      requires Addressed(rows)
      ensures ip == "" <==> !HasLease(rows, serverID, who)
      ensures ip != "" ==> Leases(rows, serverID, who, ip)
    {
      if who.Anonymous() {
        return "";
      }
      var found := set id | id in rows && Holds(rows[id], serverID, who);
      if found == {} {
        assert forall id :: id in rows && Holds(rows[id], serverID, who) ==> id in found;
        return "";
      }
      ghost var some := Pick(found);
      assert some in found;
      var id :| id in found;
      ip := rows[id].ip;
    }

    /** Is the address active under a name that is not the caller's? */
    method IsClaimedByOther(serverID: int, ip: string, who: Identity) returns (claimed: bool)
      requires Consistent(rows)
      ensures claimed <==> ClaimedByOther(rows, serverID, ip, who)
    {
      var found := set id | id in rows && SameIP(rows[id], serverID, ip) && rows[id].status == Allocated;
      if found == {} {
        assert forall id :: id in rows && SameIP(rows[id], serverID, ip) && rows[id].status == Allocated ==> id in found;
        return false;
      }
      ghost var some := Pick(found);
      assert some in found;
      var id :| id in found;
      var owner := TrimSpace(rows[id].clientID);
      claimed := !who.Is(owner);
    }

    /** The body of the loops of mergeUsedIPs, on the trimmed text. */
    static method AddUsed(used: seq<string>, seen: set<string>, ip: string) returns (used': seq<string>, seen': set<string>)
      requires seen == Elements(used)
      ensures seen' == Elements(used')
      ensures seen' == if ip == "" then seen else seen + {ip}
    {
      used', seen' := used, seen;
      if ip != "" && ip !in seen' {
        ElementsAppend(used', ip);
        seen' := seen' + {ip};
        used' := used' + [ip];
      } else if ip != "" {
        assert seen + {ip} == seen;
      }
    }

    /** The loop of mergeUsedIPs over one list. */
    static method MergeInto(used: seq<string>, seen: set<string>, ips: seq<string>) returns (used': seq<string>, seen': set<string>)
      requires seen == Elements(used) && "" !in seen
      ensures seen' == Elements(used') && seen' == UsedAfter(seen, Elements(ips))
    {
      used', seen' := used, seen;
      UsedNone(seen, ips);
      for i := 0 to |ips|
        invariant seen' == Elements(used') && seen' == UsedAfterFirst(seen, ips, i)
      {
        UsedOneMore(seen, ips, i);
        var ip := TrimSpace(ips[i]);
        used', seen' := AddUsed(used', seen', ip);
      }
      UsedAll(seen, ips);
    }

    static method MergeUsedIPs(config: seq<string>, leased: seq<string>) returns (used: seq<string>)
      ensures Elements(used) == Trimmed(Elements(config) + Elements(leased)) - {""}
    {
      var seen: set<string> := {};
      used := [];
      used, seen := MergeInto(used, seen, config);
      used, seen := MergeInto(used, seen, leased);
      assert UsedAfter(UsedAfter({}, Elements(config)), Elements(leased))
             == (Trimmed(Elements(config)) + Trimmed(Elements(leased))) - {""};
      TrimmedUnion(Elements(config), Elements(leased));
    }

    /** The addresses of all rows of a server that are not released. */
    method FetchAllocatedIPs(serverID: int) returns (ips: seq<string>)
      ensures Elements(ips) == IPsOf(rows, Blocking(rows, serverID))
    {
      ips := [];
      var todo := Blocking(rows, serverID);
      ghost var all := todo;
      while todo != {}
        invariant todo <= all && Elements(ips) == IPsOf(rows, all - todo)
        decreases |todo|
      {
        ghost var some := Pick(todo);
        assert some in todo;
        var id :| id in todo;
        IPsOneMore(rows, all, todo, id, ips);
        ips := ips + [rows[id].ip];
        todo := todo - {id};
      }
      assert all - {} == all;
    }

    /** Inserts an active row, unless a unique constraint refuses it. */
    method InsertActive(serverID: int, clientID: string, ip: string, now: Time) returns (ok: bool)
      requires Valid() && ip != ""
      modifies this
      ensures Valid() && (ok <==> Insertable(old(rows), serverID, clientID, ip))
      ensures ok ==> rows == old(rows)[old(nextID) := Row(serverID, clientID, ip, Allocated, now, now)]
      ensures !ok ==> rows == old(rows) && nextID == old(nextID)
    {
      var clashes := set id | id in rows && Clashes(rows[id], serverID, clientID, ip);
      assert forall id :: id in rows && Clashes(rows[id], serverID, clientID, ip) ==> id in clashes;
      if clashes != {} {
        ghost var some := Pick(clashes);
        assert some in clashes && Clashes(rows[some], serverID, clientID, ip);
        return false;
      }
      InsertKeeps(rows, nextID, Row(serverID, clientID, ip, Allocated, now, now));
      rows := rows[nextID := Row(serverID, clientID, ip, Allocated, now, now)];
      nextID := nextID + 1;
      ok := true;
    }

    method AllocateAWGClientIP(serverID: int, clientID: string, pubKey: string, config: seq<string>,
                               net: Subnet, next: Allocator, ghost within: (Subnet, string) -> bool, now: Time)
      returns (r: AllocReply, attempts: nat)
      requires Valid() && Chooses(next, within)
      modifies this
      ensures Valid()
      ensures AllocateStep(old(rows), old(nextID), serverID, Identify(clientID, pubKey), config, net, next, now, rows, r)
      ensures r == TooManyCollisions ==> attempts == 50
      ensures r != TooManyCollisions ==> attempts == 1
    {
      var who := Identify(clientID, pubKey);
      TrimIsIdempotent(clientID);
      TrimIsIdempotent(pubKey);
      attempts := 0;
      while attempts < 50
        invariant attempts <= 50 && Valid() && rows == old(rows) && nextID == old(nextID)
        invariant attempts > 0 ==> !HasLease(rows, serverID, who)
                                   && next(UsedIPs(rows, serverID, config), net).Some?
                                   && !Insertable(rows, serverID, who.Stored(), next(UsedIPs(rows, serverID, config), net).value)
      {
        attempts := attempts + 1;
        var existing := FindExistingAllocation(serverID, who);
        if existing != "" {
          OwnIsNotClaimed(rows, serverID, existing, who);
          var claimed := IsClaimedByOther(serverID, existing, who);
          if !claimed {
            return Leased(existing), attempts;
          }
        }
        var leased := FetchAllocatedIPs(serverID);
        var used := MergeUsedIPs(config, leased);
        assert Elements(used) == UsedIPs(rows, serverID, config);
        var choice := next(Elements(used), net);
        if choice.None? {
          return Exhausted, attempts;
        }
        var ok := InsertActive(serverID, who.Stored(), choice.value, now);
        if ok {
          return Leased(choice.value), attempts;
        }
      }
      r := TooManyCollisions;
    }

    method ReleaseAWGClientIP(serverID: int, clientID: string, ip: string)
      requires Valid()
      modifies this`rows
      ensures Valid() && rows == AfterRelease(old(rows), serverID, TrimSpace(clientID), TrimSpace(ip))
    {
      ReleaseTrimmed(serverID, TrimSpace(clientID), TrimSpace(ip));
    }

    method ReleaseTrimmed(serverID: int, c: string, i: string)
      requires Valid()
      modifies this`rows
      ensures Valid() && rows == AfterRelease(old(rows), serverID, c, i)
    {
      ghost var before := rows;
      if c == "" && i == "" {
        assert forall id :: id in before ==> !ReleasedBy(before[id], serverID, c, i);
      } else if c != "" && i != "" {
        rows := map id | id in rows && !(rows[id].serverID == serverID && rows[id].clientID == c && rows[id].ip == i) :: rows[id];
      } else if i != "" {
        rows := map id | id in rows && !(rows[id].serverID == serverID && rows[id].ip == i) :: rows[id];
      } else {
        rows := map id | id in rows && !(rows[id].serverID == serverID && rows[id].clientID == c) :: rows[id];
      }
      assert forall id :: id in before ==> (id in rows <==> !ReleasedBy(before[id], serverID, c, i));
      assert rows == AfterRelease(before, serverID, c, i);
    }

    method TransferAWGClientIPLease(serverID: int, newClientID: string, oldClientID: string, ip: string, now: Time)
      returns (r: TransferReply)
      requires Valid()
      modifies this`rows
      ensures Valid()
      ensures TransferStep(old(rows), serverID, TrimSpace(newClientID), TrimSpace(oldClientID), TrimSpace(ip), now, rows, r)
    {
      var n, o, i := TrimSpace(newClientID), TrimSpace(oldClientID), TrimSpace(ip);
      if n == "" || o == "" || i == "" {
        return MissingParameters;
      }
      var hit := set id | id in rows && Targets(rows[id], serverID, o, i);
      var next := Renamed(rows, serverID, n, o, i, now);
      RenamedKeepsIPs(rows, serverID, n, o, i, now);
      // The statement fails when it would break the constraint on active clients.
      var unique := CheckUniqueActive(next);
      if !unique {
        return ConstraintViolated;
      }
      if hit == {} {
        assert forall id :: id in rows && Targets(rows[id], serverID, o, i) ==> id in hit;
        return NotOwned;
      }
      ghost var some := Pick(hit);
      assert some in hit && Targets(rows[some], serverID, o, i);
      rows := next;
      r := Transferred;
    }

    /** What the database checks before it accepts an update. */
    static method CheckUniqueActive(t: Table) returns (unique: bool)
      ensures unique <==> UniqueActive(t)
    {
      var clash := set a, b | a in t && b in t && a != b && SameActive(t[a], t[b]) :: (a, b);
      assert forall a, b :: a in t && b in t && a != b && SameActive(t[a], t[b]) ==> (a, b) in clash;
      if clash != {} {
        ghost var some := Pick(clash);
        assert some in clash && SameActive(t[some.0], t[some.1]);
        return false;
      }
      unique := true;
    }

    /** The client of the active row of an address. */
    method ActiveClient(serverID: int, ip: string) returns (owner: Option<string>)
      requires Consistent(rows)
      ensures owner.None? ==> forall id :: id in rows && SameIP(rows[id], serverID, ip) ==> rows[id].status != Allocated
      ensures owner.Some? ==> (exists id :: id in rows && SameIP(rows[id], serverID, ip) && rows[id].status == Allocated)
                              && forall c :: ActiveOwner(rows, serverID, ip, c) <==> c == owner.value
    {
      var active := set id | id in rows && SameIP(rows[id], serverID, ip) && rows[id].status == Allocated;
      if active == {} {
        assert forall id :: id in rows && SameIP(rows[id], serverID, ip) && rows[id].status == Allocated ==> id in active;
        return None;
      }
      ghost var some := Pick(active);
      assert some in active;
      var id :| id in active;
      owner := Some(rows[id].clientID);
      assert ActiveOwner(rows, serverID, ip, owner.value);
      forall c | ActiveOwner(rows, serverID, ip, c) ensures c == owner.value {
        OneOwner(rows, serverID, ip, c, owner.value);
      }
    }

    method AdoptAWGClientIPLease(serverID: int, clientID: string, pubKey: string, rawIP: string,
                                 parses: string -> bool, now: Time) returns (ok: bool)
      requires Valid()
      modifies this
      ensures Valid()
      ensures AdoptStep(old(rows), old(nextID), serverID, Identify(clientID, pubKey), TrimSpace(rawIP),
                        parses(TrimSpace(rawIP)), now, rows, ok)
    {
      var ip := TrimSpace(rawIP);
      ok := AdoptTrimmed(serverID, Identify(clientID, pubKey), ip, parses(ip), now);
    }

    /** Everything after the trimming. */
    method AdoptTrimmed(serverID: int, who: Identity, ip: string, parses: bool, now: Time) returns (ok: bool)
      requires Valid()
      modifies this
      ensures Valid()
      ensures AdoptStep(old(rows), old(nextID), serverID, who, ip, parses, now, rows, ok)
    {
      if ip == "" || !parses {
        return false;
      }
      if who.Stored() == "" {
        return false;
      }
      var owner := ActiveClient(serverID, ip);
      if owner.Some? {
        var name := TrimSpace(owner.value);
        ok := name == who.Stored() || who.Is(name);
        return;
      }
      // Retire what the client holds elsewhere on this server, then insert or take over.
      SupersedingFrees(rows, serverID, who, now);
      rows := Superseding(rows, serverID, who, now);
      Upsert(serverID, who.Stored(), ip, now);
      ok := true;
    }

    method Upsert(serverID: int, clientID: string, ip: string, now: Time)
      requires Valid() && ip != ""
      requires forall id :: id in rows ==>
        !(rows[id].serverID == serverID && rows[id].status == Allocated && rows[id].clientID == clientID)
      modifies this
      ensures Valid() && Upserted(old(rows), old(nextID), serverID, clientID, ip, now, rows)
    {
      var same := set id | id in rows && SameIP(rows[id], serverID, ip);
      if same != {} {
        ghost var some := Pick(same);
        assert some in same;
        var id :| id in same;
        rows := rows[id := rows[id].(clientID := clientID, status := Allocated, updatedAt := now)];
      } else {
        assert forall id :: id in rows && SameIP(rows[id], serverID, ip) ==> id in same;
        InsertKeeps(rows, nextID, Row(serverID, clientID, ip, Allocated, now, now));
        rows := rows[nextID := Row(serverID, clientID, ip, Allocated, now, now)];
        nextID := nextID + 1;
      }
    }
  }

  /** Renaming leaves the addresses alone. */
  lemma RenamedKeepsIPs(t: Table, serverID: int, newClient: string, oldClient: string, ip: string, now: Time)
    requires UniqueIPs(t)
    ensures UniqueIPs(Renamed(t, serverID, newClient, oldClient, ip, now))
  {
  }

  ghost predicate ClaimedByOther(t: Table, serverID: int, ip: string, who: Identity) {
    exists id :: id in t && SameIP(t[id], serverID, ip) && t[id].status == Allocated && !who.Is(TrimSpace(t[id].clientID))
  }

  /** A lease found under one of the trimmed names of a client is not another's. */
  lemma OwnIsNotClaimed(t: Table, serverID: int, ip: string, who: Identity)
    requires Consistent(t) && Leases(t, serverID, who, ip)
    requires TrimSpace(who.clientID) == who.clientID && TrimSpace(who.pubKey) == who.pubKey
    ensures !ClaimedByOther(t, serverID, ip, who)
  {
  }

  lemma IPsOneMore(t: Table, all: set<int>, todo: set<int>, id: int, ips: seq<string>)
    requires id in todo && todo <= all && id in t && Elements(ips) == IPsOf(t, all - todo)
    ensures Elements(ips + [t[id].ip]) == IPsOf(t, all - (todo - {id}))
  {
    ElementsAppend(ips, t[id].ip);
    assert all - (todo - {id}) == (all - todo) + {id};
  }

  /** The used set after a list of raw texts: trimmed, and never the empty text. */
  ghost function UsedAfter(seen: set<string>, raw: set<string>): set<string> {
    (seen + Trimmed(raw)) - {""}
  }

  ghost function UsedAfterFirst(seen: set<string>, ips: seq<string>, i: nat): set<string>
    requires i <= |ips|
  {
    UsedAfter(seen, Elements(ips[..i]))
  }

  lemma UsedNone(seen: set<string>, ips: seq<string>)
    requires "" !in seen
    ensures UsedAfterFirst(seen, ips, 0) == seen
  {
    assert ips[..0] == [];
  }

  lemma UsedAll(seen: set<string>, ips: seq<string>)
    ensures UsedAfterFirst(seen, ips, |ips|) == UsedAfter(seen, Elements(ips))
  {
    assert ips[..|ips|] == ips;
  }

  lemma UsedOneMore(seen: set<string>, ips: seq<string>, i: nat)
    requires i < |ips|
    ensures UsedAfterFirst(seen, ips, i + 1)
            == if TrimSpace(ips[i]) == "" then UsedAfterFirst(seen, ips, i) else UsedAfterFirst(seen, ips, i) + {TrimSpace(ips[i])}
  {
    assert ips[..i + 1] == ips[..i] + [ips[i]];
    ElementsAppend(ips[..i], ips[i]);
    UsedWith(seen, Elements(ips[..i]), ips[i], TrimSpace(ips[i]));
  }

  lemma UsedWith(seen: set<string>, raw: set<string>, x: string, trimmed: string)
    requires trimmed == TrimSpace(x)
    ensures UsedAfter(seen, raw + {x}) == if trimmed == "" then UsedAfter(seen, raw) else UsedAfter(seen, raw) + {trimmed}
  {
    TrimmedUnion(raw, {x});
    TrimmedSingle(x);
  }

  lemma TrimmedSingle(x: string)
    ensures Trimmed({x}) == {TrimSpace(x)}
  {
  }

  lemma TrimmedUnion(a: set<string>, b: set<string>)
    ensures Trimmed(a + b) == Trimmed(a) + Trimmed(b)
  {
  }
}
