/** internal/database/migrations_legacy_alloc.go: before the index on active clients is
    created, a table that was written without it is reconciled. */
module Reconcile {
  import opened Sets
  import opened Instants
  import opened Domain
  import opened Leases
  import opened ClientParams

  /** What the user connections say: when an address matches a name, and the names found
      for a client of a server, in order. */
  datatype Evidence = Evidence(matches: (string, string) -> bool, named: (int, string) -> seq<string>)

  function FromConnections(net: Net, cs: seq<Connection>): Evidence {
    Evidence((ip, name) => MatchAllocationIP(net, ip, name), (serverID, clientID) => Candidates(net, cs, serverID, clientID))
  }

  // ---- which row is kept ---------------------------------------------------

  predicate IsActive(r: Row, serverID: int, clientID: string) {
    r.status == Allocated && r.serverID == serverID && r.clientID == clientID
  }

  function Active(t: Table, serverID: int, clientID: string): set<int> {
    set id | id in t && IsActive(t[id], serverID, clientID)
  }

  /** The i-th candidate is the first that any active row of the client matches, and id is
      the lowest row that matches it. */
  ghost predicate MatchesAt(e: Evidence, t: Table, serverID: int, clientID: string, i: nat, id: int) {
    && i < |e.named(serverID, clientID)|
    && id in Active(t, serverID, clientID) && e.matches(t[id].ip, e.named(serverID, clientID)[i])
    && (forall k, j :: 0 <= k < i && j in Active(t, serverID, clientID) ==> !e.matches(t[j].ip, e.named(serverID, clientID)[k]))
    && (forall j :: j in Active(t, serverID, clientID) && e.matches(t[j].ip, e.named(serverID, clientID)[i]) ==> id <= j)
  }

  ghost predicate NoneMatches(e: Evidence, t: Table, serverID: int, clientID: string) {
    forall k, j :: 0 <= k < |e.named(serverID, clientID)| && j in Active(t, serverID, clientID) ==> !e.matches(t[j].ip, e.named(serverID, clientID)[k])
  }

  ghost predicate IsLeast(s: set<int>, id: int) { id in s && forall j :: j in s ==> id <= j }

  /** The one active row of a client that survives. */
  ghost predicate Chosen(e: Evidence, t: Table, serverID: int, clientID: string, id: int) {
    || (exists i :: MatchesAt(e, t, serverID, clientID, i, id))
    || (NoneMatches(e, t, serverID, clientID) && IsLeast(Active(t, serverID, clientID), id))
  }

  lemma ChosenIsUnique(e: Evidence, t: Table, serverID: int, clientID: string, a: int, b: int)
    requires Chosen(e, t, serverID, clientID, a) && Chosen(e, t, serverID, clientID, b)
    ensures a == b
  {
    if i, k :| MatchesAt(e, t, serverID, clientID, i, a) && MatchesAt(e, t, serverID, clientID, k, b) {
      assert i == k;
    }
  }

  // ---- identical duplicates ------------------------------------------------

  predicate SameLease(a: Row, b: Row) { SameActive(a, b) && a.ip == b.ip }

  /** An active row with an identical one of a lower id. */
  predicate IsDuplicate(t: Table, id: int)
    requires id in t
  {
    exists j :: j in t && j < id && SameLease(t[j], t[id])
  }

  function Deduplicated(t: Table): Table { map id | id in t && !IsDuplicate(t, id) :: t[id] }

  ghost function Identical(t: Table, id: int): set<int>
    requires id in t
  {
    set j | j in t && SameLease(t[j], t[id])
  }

  ghost function Least(s: set<int>): (m: int)
    requires s != {}
    ensures IsLeast(s, m)
    decreases |s|
  {
    var x := Pick(s);
    if s == {x} then x
    else
      var y := Least(s - {x});
      assert forall j :: j in s ==> j == x || j in s - {x};
      if x < y then x else y
  }

  /** The lowest of the identical rows is kept. */
  lemma Original(t: Table, id: int) returns (first: int)
    requires id in t && t[id].status == Allocated
    ensures first in Deduplicated(t) && first <= id && SameLease(t[first], t[id])
  {
    assert id in Identical(t, id);
    first := Least(Identical(t, id));
    assert first in Identical(t, id);
    forall j | j in t && SameLease(t[j], t[first]) ensures j >= first {
      assert j in Identical(t, id);
    }
  }

  /** Dropping duplicates does not change which row is chosen. */
  lemma ChosenIgnoresDuplicates(e: Evidence, t: Table, serverID: int, clientID: string, id: int)
    requires Chosen(e, Deduplicated(t), serverID, clientID, id)
    ensures Chosen(e, t, serverID, clientID, id)
  {
    var d := Deduplicated(t);
    forall j | j in Active(t, serverID, clientID)
      ensures exists f :: f in Active(d, serverID, clientID) && f <= j && t[f].ip == t[j].ip && d[f] == t[f]
    {
      var f := Original(t, j);
      assert f in Active(d, serverID, clientID);
    }
    if i :| MatchesAt(e, d, serverID, clientID, i, id) {
      assert MatchesAt(e, t, serverID, clientID, i, id);
    }
  }

  // ---- the whole reconciliation --------------------------------------------

  ghost predicate Survives(e: Evidence, t: Table, id: int)
    requires id in t
  {
    t[id].status == Allocated ==>
      Chosen(e, t, t[id].serverID, t[id].clientID, id)
  }

  function Retired(r: Row, now: Time): Row { r.(status := Superseded, updatedAt := now) }

  /** With `todo` the groups not yet looked at. */
  ghost function Swept(e: Evidence, t: Table, todo: set<(int, string)>, now: Time): Table {
    map id | id in t :: if (t[id].serverID, t[id].clientID) in todo || Survives(e, t, id) then t[id] else Retired(t[id], now)
  }

  ghost function Reconciled(e: Evidence, t: Table, now: Time): Table {
    Swept(e, Deduplicated(t), {}, now)
  }

  /** Rows are deleted exactly when they are duplicates, and a lower row keeps their
      address, server and client. */
  lemma OnlyDuplicatesAreDeleted(e: Evidence, t: Table, now: Time, id: int)
    requires id in t
    ensures id !in Reconciled(e, t, now) <==> IsDuplicate(t, id)
    ensures IsDuplicate(t, id) ==>
              exists f :: f in Reconciled(e, t, now) && f < id && SameLease(t[f], t[id])
                          && Reconciled(e, t, now)[f].(status := Allocated, updatedAt := 0) == t[f].(updatedAt := 0)
  {
    if IsDuplicate(t, id) {
      var f := Original(t, id);
      assert f in Reconciled(e, t, now);
    }
  }

  /** Rows that were not active stay as they were, and no row becomes active. */
  lemma InactiveRowsAreUntouched(e: Evidence, t: Table, now: Time, id: int)
    requires id in t && t[id].status != Allocated
    ensures id in Reconciled(e, t, now) && Reconciled(e, t, now)[id] == t[id]
  {
  }

  lemma SomeIsChosen(e: Evidence, t: Table, serverID: int, clientID: string, n: nat)
    returns (id: int)
    requires Active(t, serverID, clientID) != {} && n <= |e.named(serverID, clientID)|
    requires forall k, j :: 0 <= k < n && j in Active(t, serverID, clientID) ==> !e.matches(t[j].ip, e.named(serverID, clientID)[k])
    ensures Chosen(e, t, serverID, clientID, id)
    decreases |e.named(serverID, clientID)| - n
  {
    if n == |e.named(serverID, clientID)| {
      id := Least(Active(t, serverID, clientID));
    } else {
      var hits := set j | j in Active(t, serverID, clientID) && e.matches(t[j].ip, e.named(serverID, clientID)[n]);
      if hits == {} {
        assert forall j :: j in Active(t, serverID, clientID) && e.matches(t[j].ip, e.named(serverID, clientID)[n]) ==> j in hits;
        id := SomeIsChosen(e, t, serverID, clientID, n + 1);
      } else {
        id := Least(hits);
        assert forall j :: j in Active(t, serverID, clientID) && e.matches(t[j].ip, e.named(serverID, clientID)[n]) ==> j in hits;
        assert MatchesAt(e, t, serverID, clientID, n, id);
      }
    }
  }

  /** Every client that had an active row keeps exactly one: the row a user connection of
      that client names, or else its lowest row; it is unchanged. */
  lemma OneLeaseEach(e: Evidence, t: Table, now: Time, serverID: int, clientID: string) returns (id: int)
    requires Active(t, serverID, clientID) != {}
    ensures var t' := Reconciled(e, t, now);
            Active(t', serverID, clientID) == {id} && id in t && t'[id] == t[id]
    ensures Chosen(e, t, serverID, clientID, id)
  {
    var d := Deduplicated(t);
    var t' := Reconciled(e, t, now);
    var some := Pick(Active(t, serverID, clientID));
    var first := Original(t, some);
    assert first in Active(d, serverID, clientID);
    id := SomeIsChosen(e, d, serverID, clientID, 0);
    ChosenIgnoresDuplicates(e, t, serverID, clientID, id);
    assert id in Active(d, serverID, clientID);
    assert id in Active(t', serverID, clientID);
    forall j | j in Active(t', serverID, clientID) ensures j == id {
      ChosenIsUnique(e, d, serverID, clientID, j, id);
    }
  }

  /** An active row that is neither a duplicate nor the one kept is superseded, and
      otherwise as it was. */
  lemma LosersAreSuperseded(e: Evidence, t: Table, now: Time, id: int)
    requires id in t && t[id].status == Allocated && !IsDuplicate(t, id)
    requires id !in Active(Reconciled(e, t, now), t[id].serverID, t[id].clientID)
    ensures id in Reconciled(e, t, now)
    ensures Reconciled(e, t, now)[id] == t[id].(status := Superseded, updatedAt := now)
  {
  }

  /** A client without an active row gets none. */
  lemma NoLeaseAppears(e: Evidence, t: Table, now: Time, serverID: int, clientID: string)
    requires Active(t, serverID, clientID) == {}
    ensures Active(Reconciled(e, t, now), serverID, clientID) == {}
  {
    assert Active(Reconciled(e, t, now), serverID, clientID) <= Active(t, serverID, clientID);
  }

  /** So the unique index can be created. */
  lemma IndexCanBeCreated(e: Evidence, t: Table, now: Time)
    ensures UniqueActive(Reconciled(e, t, now))
  {
    var t' := Reconciled(e, t, now);
    forall i, j | i in t' && j in t' && SameActive(t'[i], t'[j]) ensures i == j {
      var s, c := t'[i].serverID, t'[i].clientID;
      ChosenIsUnique(e, Deduplicated(t), s, c, i, j);
    }
  }

  lemma AloneIsChosen(e: Evidence, t: Table, serverID: int, clientID: string, id: int)
    requires Active(t, serverID, clientID) == {id}
    ensures Chosen(e, t, serverID, clientID, id)
  {
    var other := SomeIsChosen(e, t, serverID, clientID, 0);
    assert other in Active(t, serverID, clientID);
  }

  /** A table under the constraint is left alone, whatever the connections and the time:
      a second run changes nothing. */
  lemma SecondRunChangesNothing(e: Evidence, t: Table, now: Time, e2: Evidence, now2: Time)
    ensures Reconciled(e2, Reconciled(e, t, now), now2) == Reconciled(e, t, now)
  {
    IndexCanBeCreated(e, t, now);
    UniqueIsFixed(e2, Reconciled(e, t, now), now2);
  }

  lemma UniqueIsFixed(e: Evidence, t: Table, now: Time)
    requires UniqueActive(t)
    ensures Reconciled(e, t, now) == t
  {
    assert Deduplicated(t) == t;
    forall id | id in t && t[id].status == Allocated ensures Survives(e, t, id) {
      var s, c := t[id].serverID, t[id].clientID;
      assert Active(t, s, c) == {id};
      AloneIsChosen(e, t, s, c, id);
    }
  }

  // ---- what the connections decide ------------------------------------------

  ghost predicate Matched(e: Evidence, serverID: int, clientID: string, ip: string) {
    exists k :: 0 <= k < |e.named(serverID, clientID)| && e.matches(ip, e.named(serverID, clientID)[k])
  }

  lemma ChosenIsMatched(e: Evidence, t: Table, serverID: int, clientID: string, id: int)
    requires Chosen(e, t, serverID, clientID, id)
    ensures id in Active(t, serverID, clientID)
    ensures if exists j :: j in Active(t, serverID, clientID) && Matched(e, serverID, clientID, t[j].ip)
            then Matched(e, serverID, clientID, t[id].ip)
            else IsLeast(Active(t, serverID, clientID), id)
  {
  }

  lemma MatchedMeansNamed(net: Net, cs: seq<Connection>, serverID: int, clientID: string, ip: string)
    ensures Matched(FromConnections(net, cs), serverID, clientID, ip) <==> NamedBySome(net, cs, serverID, clientID, ip)
  {
    CandidatesAreNamed(net, cs, serverID, clientID, ip);
  }

  /** If a connection of the client names one of its active rows, the row that is kept is
      named by one; if none does, the lowest row is kept. */
  lemma KeptRowIsNamed(net: Net, cs: seq<Connection>, t: Table, now: Time, serverID: int, clientID: string, id: int)
    requires id in Active(Reconciled(FromConnections(net, cs), t, now), serverID, clientID)
    ensures id in Active(t, serverID, clientID)
    ensures if exists j :: j in Active(t, serverID, clientID) && NamedBySome(net, cs, serverID, clientID, t[j].ip)
            then NamedBySome(net, cs, serverID, clientID, t[id].ip)
            else IsLeast(Active(t, serverID, clientID), id)
  {
    var e := FromConnections(net, cs);
    KeptIsChosen(e, t, now, serverID, clientID, id);
    ChosenIsMatched(e, t, serverID, clientID, id);
    forall j | j in Active(t, serverID, clientID)
      ensures Matched(e, serverID, clientID, t[j].ip) <==> NamedBySome(net, cs, serverID, clientID, t[j].ip)
    {
      MatchedMeansNamed(net, cs, serverID, clientID, t[j].ip);
    }
  }

  lemma KeptIsChosen(e: Evidence, t: Table, now: Time, serverID: int, clientID: string, id: int)
    requires id in Active(Reconciled(e, t, now), serverID, clientID)
    ensures Chosen(e, t, serverID, clientID, id)
  {
    assert id in Active(t, serverID, clientID);
    var kept := OneLeaseEach(e, t, now, serverID, clientID);
    assert kept == id;
  }

  /** The order of preference: the first connection that names any active row of the client
      decides, its assigned address before its other one, and of several rows that match
      the lowest. */
  lemma FirstConnectionDecides(net: Net, cs: seq<Connection>, t: Table, now: Time, serverID: int, clientID: string, id: int)
    returns (n: nat)
    requires id in Active(Reconciled(FromConnections(net, cs), t, now), serverID, clientID)
    requires exists j, m :: j in Active(t, serverID, clientID) && 0 <= m < |cs| && NamedBy(net, cs[m], serverID, clientID, t[j].ip)
    ensures id in Active(t, serverID, clientID)
    ensures n < |cs| && Concerns(cs[n], serverID, clientID) && cs[n].params.Params?
    ensures forall m, j :: 0 <= m < n && j in Active(t, serverID, clientID) ==> !NamedBy(net, cs[m], serverID, clientID, t[j].ip)
    ensures Decides(FromConnections(net, cs), t, serverID, clientID,
                    ExtractIP(net, cs[n].params.assignedIP), ExtractIP(net, cs[n].params.address), id)
  {
    var e := FromConnections(net, cs);
    KeptIsChosen(e, t, now, serverID, clientID, id);
    SomeNameMatches(net, cs, t, serverID, clientID);
    var i: nat :| MatchesAt(e, t, serverID, clientID, i, id);
    n := CandidateDecides(net, cs, t, serverID, clientID, i, id);
  }

  lemma CandidateDecides(net: Net, cs: seq<Connection>, t: Table, serverID: int, clientID: string, i: nat, id: int)
    returns (n: nat)
    requires MatchesAt(FromConnections(net, cs), t, serverID, clientID, i, id)
    ensures n < |cs| && Concerns(cs[n], serverID, clientID) && cs[n].params.Params?
    ensures forall m, j :: 0 <= m < n && j in Active(t, serverID, clientID) ==> !NamedBy(net, cs[m], serverID, clientID, t[j].ip)
    ensures Decides(FromConnections(net, cs), t, serverID, clientID,
                    ExtractIP(net, cs[n].params.assignedIP), ExtractIP(net, cs[n].params.address), id)
  {
    var off;
    n, off := Locate(net, cs, serverID, clientID, i);
    forall m, j | 0 <= m < n && j in Active(t, serverID, clientID)
      ensures !NamedBy(net, cs[m], serverID, clientID, t[j].ip)
    {
      EarlierCandidatesFail(net, cs, t, serverID, clientID, i, id, j);
      EarlierNamesFail(net, cs, t, serverID, clientID, i, n, off, m, j);
    }
    LocatedDecides(net, cs, t, serverID, clientID, i, id, n, off);
  }

  lemma EarlierCandidatesFail(net: Net, cs: seq<Connection>, t: Table, serverID: int, clientID: string, i: nat, id: int, j: int)
    requires MatchesAt(FromConnections(net, cs), t, serverID, clientID, i, id) && j in Active(t, serverID, clientID)
    ensures i < |Candidates(net, cs, serverID, clientID)|
    ensures forall k :: 0 <= k < i ==> !MatchAllocationIP(net, t[j].ip, Candidates(net, cs, serverID, clientID)[k])
  {
    var e := FromConnections(net, cs);
    forall k | 0 <= k < i ensures !MatchAllocationIP(net, t[j].ip, Candidates(net, cs, serverID, clientID)[k]) {
      assert !e.matches(t[j].ip, e.named(serverID, clientID)[k]);
    }
  }

  lemma LocatedDecides(net: Net, cs: seq<Connection>, t: Table, serverID: int, clientID: string, i: nat, id: int, n: nat, off: nat)
    requires MatchesAt(FromConnections(net, cs), t, serverID, clientID, i, id) && At(net, cs, serverID, clientID, i, n, off)
    ensures Decides(FromConnections(net, cs), t, serverID, clientID,
                    ExtractIP(net, cs[n].params.assignedIP), ExtractIP(net, cs[n].params.address), id)
  {
    NameOf(net, cs, serverID, clientID, i, n, off);
    BlankIsNoMatch(net, cs);
    NameDecides(FromConnections(net, cs), t, serverID, clientID, i, id,
                ExtractIP(net, cs[n].params.assignedIP), ExtractIP(net, cs[n].params.address), off);
  }

  ghost predicate NoMatch(e: Evidence, t: Table, serverID: int, clientID: string, name: string) {
    forall j :: j in Active(t, serverID, clientID) ==> !e.matches(t[j].ip, name)
  }

  ghost predicate LowestMatch(e: Evidence, t: Table, serverID: int, clientID: string, name: string, id: int) {
    && id in Active(t, serverID, clientID) && e.matches(t[id].ip, name)
    && forall j :: j in Active(t, serverID, clientID) && e.matches(t[j].ip, name) ==> id <= j
  }

  /** The lowest row that matches the first name, or if none does the other. */
  ghost predicate Decides(e: Evidence, t: Table, serverID: int, clientID: string, first: string, other: string, id: int) {
    || LowestMatch(e, t, serverID, clientID, first, id)
    || (NoMatch(e, t, serverID, clientID, first) && LowestMatch(e, t, serverID, clientID, other, id))
  }

  lemma SomeNameMatches(net: Net, cs: seq<Connection>, t: Table, serverID: int, clientID: string)
    requires exists j, m :: j in Active(t, serverID, clientID) && 0 <= m < |cs| && NamedBy(net, cs[m], serverID, clientID, t[j].ip)
    ensures !NoneMatches(FromConnections(net, cs), t, serverID, clientID)
  {
    var j, m :| j in Active(t, serverID, clientID) && 0 <= m < |cs| && NamedBy(net, cs[m], serverID, clientID, t[j].ip);
    assert NamedBySome(net, cs, serverID, clientID, t[j].ip);
    CandidatesAreNamed(net, cs, serverID, clientID, t[j].ip);
    var k :| 0 <= k < |Candidates(net, cs, serverID, clientID)|
             && MatchAllocationIP(net, t[j].ip, Candidates(net, cs, serverID, clientID)[k]);
    assert FromConnections(net, cs).matches(t[j].ip, FromConnections(net, cs).named(serverID, clientID)[k]);
  }

  /** Names of an earlier connection are earlier candidates, which match nothing. */
  lemma EarlierNamesFail(net: Net, cs: seq<Connection>, t: Table, serverID: int, clientID: string,
                         i: nat, n: nat, off: nat, m: nat, j: int)
    requires At(net, cs, serverID, clientID, i, n, off) && m < n && j in Active(t, serverID, clientID)
    requires forall k :: 0 <= k < i ==> !MatchAllocationIP(net, t[j].ip, Candidates(net, cs, serverID, clientID)[k])
    ensures !NamedBy(net, cs[m], serverID, clientID, t[j].ip)
  {
    var before := cs[..n];
    CandidatesPrefix(net, cs, serverID, clientID, n);
    CandidatesAreNamed(net, before, serverID, clientID, t[j].ip);
    assert before[m] == cs[m];
  }

  /** Within one connection the assigned address comes first. */
  lemma NameDecides(e: Evidence, t: Table, serverID: int, clientID: string, i: nat, id: int, first: string, other: string, off: nat)
    requires MatchesAt(e, t, serverID, clientID, i, id) && off <= i
    requires e.named(serverID, clientID)[i] == if off == 0 && first != "" then first else other
    requires off > 0 ==> e.named(serverID, clientID)[i - off] == first
    requires first == "" ==> forall ip :: !e.matches(ip, first)
    requires off > 0 ==> first != ""
    ensures Decides(e, t, serverID, clientID, first, other, id)
  {
  }

  lemma BlankIsNoMatch(net: Net, cs: seq<Connection>)
    ensures forall ip :: !FromConnections(net, cs).matches(ip, "")
  {
    forall ip ensures !FromConnections(net, cs).matches(ip, "") { BlankMatchesNothing(net, ip); }
  }

  // ---- the table as an object ----------------------------------------------

  class LegacyDB {
    var rows: Table
    const connections: seq<Connection>
    const hasConnections: bool

    ghost predicate Valid()
      reads this
    {
      forall id :: id in rows ==> id > 0
    }

    /** What a lookup sees: nothing when the table of connections is missing. */
    ghost function Seen(): seq<Connection> { if hasConnections then connections else [] }

    constructor (rows: Table, connections: seq<Connection>, hasConnections: bool)
      requires forall id :: id in rows ==> id > 0
      ensures Valid() && this.rows == rows && Seen() == if hasConnections then connections else []
    {
      this.rows, this.connections, this.hasConnections := rows, connections, hasConnections;
    }

    /** Deletes the active rows that are not the lowest of their server, client and address. */
    method DeleteDuplicates()
      modifies this`rows
      ensures rows == Deduplicated(old(rows))
    {
      var lowest := Lowest(rows);
      LowestAreNoDuplicates(rows);
      rows := map id | id in rows && !(rows[id].status == Allocated && id !in lowest) :: rows[id];
    }

    /** The clients of a server with more than one active row. */
    method Groups() returns (groups: set<(int, string)>)
      ensures forall i, j :: i in rows && j in rows && i != j && SameActive(rows[i], rows[j]) ==>
                (rows[i].serverID, rows[i].clientID) in groups
      ensures forall g :: g in groups ==> Active(rows, g.0, g.1) != {}
    {
      groups := set i, j | i in rows && j in rows && i != j && SameActive(rows[i], rows[j])
                :: (rows[i].serverID, rows[i].clientID);
      forall g | g in groups ensures Active(rows, g.0, g.1) != {} {
        var i, j :| i in rows && j in rows && i != j && SameActive(rows[i], rows[j]) && g == (rows[i].serverID, rows[i].clientID);
        assert i in Active(rows, g.0, g.1);
      }
    }

    /** The active rows of a client, in ascending order. */
    method FetchActive(serverID: int, clientID: string) returns (ids: seq<int>)
      ensures Lists(ids, Active(rows, serverID, clientID))
    {
      ids := [];
      var todo := Active(rows, serverID, clientID);
      ghost var all := todo;
      while todo != {}
        invariant todo <= all && Lists(ids, all - todo) && Before(all - todo, todo)
        decreases |todo|
      {
        ghost var least := Least(todo);
        assert least in todo && forall j :: j in todo ==> least <= j;
        var id :| id in todo && forall j :: j in todo ==> id <= j;
        ListsOneMore(all, todo, id, ids);
        ids := ids + [id];
        todo := todo - {id};
      }
      assert all - {} == all;
    }

    method CandidateIPs(net: Net, serverID: int, clientID: string) returns (cands: seq<string>)
      ensures cands == Candidates(net, connections, serverID, clientID)
    {
      cands := [];
      for n := 0 to |connections|
        invariant cands == Candidates(net, connections[..n], serverID, clientID)
      {
        CandidatesOneMore(net, connections, n, serverID, clientID);
        if !Concerns(connections[n], serverID, clientID) {
          continue;
        }
        cands := AppendNamed(net, connections[n].params, cands);
      }
      assert connections[..|connections|] == connections;
    }

    static method AppendNamed(net: Net, p: Params, cands: seq<string>) returns (cands': seq<string>)
      ensures cands' == cands + NamedIn(net, p)
    {
      if p.Unreadable? {
        return cands;
      }
      var a, b := ExtractIP(net, p.assignedIP), ExtractIP(net, p.address);
      cands' := AppendBoth(cands, a, b);
    }

    static method AppendBoth(cands: seq<string>, a: string, b: string) returns (cands': seq<string>)
      ensures cands' == cands + (NonBlank(a) + NonBlank(b))
    {
      cands' := AppendNonBlank(cands, a);
      cands' := AppendNonBlank(cands', b);
    }

    static method AppendNonBlank(cands: seq<string>, ip: string) returns (cands': seq<string>)
      ensures cands' == cands + NonBlank(ip)
    {
      cands' := if ip != "" then cands + [ip] else cands;
    }

    /** The nested loops of findMatchingAllocIDFromUserConnectionsLocked; -1 for no match. */
    method FirstMatch(e: Evidence, serverID: int, clientID: string, ids: seq<int>, cands: seq<string>) returns (id: int)
      requires Valid() && Lists(ids, Active(rows, serverID, clientID)) && cands == e.named(serverID, clientID)
      ensures id == -1 ==> NoneMatches(e, rows, serverID, clientID)
      ensures id != -1 ==> exists i :: MatchesAt(e, rows, serverID, clientID, i, id)
    {
      for i := 0 to |cands|
        invariant forall k, j :: 0 <= k < i && j in Active(rows, serverID, clientID) ==> !e.matches(rows[j].ip, cands[k])
      {
        for a := 0 to |ids|
          invariant forall k :: 0 <= k < a ==> ids[k] in rows && !e.matches(rows[ids[k]].ip, cands[i])
        {
          assert ids[a] in Elements(ids);
          if e.matches(rows[ids[a]].ip, cands[i]) {
            FirstIsLowest(e, rows, serverID, clientID, ids, i, a);
            return ids[a];
          }
        }
        assert forall j :: j in Elements(ids) ==> exists k :: 0 <= k < |ids| && j == ids[k];
      }
      id := -1;
    }

    /** The row of a group that is kept. */
    method Retain(net: Net, serverID: int, clientID: string, ids: seq<int>) returns (id: int)
      requires Valid() && ids != [] && Lists(ids, Active(rows, serverID, clientID))
      ensures Chosen(FromConnections(net, Seen()), rows, serverID, clientID, id)
    {
      id := -1;
      if hasConnections {
        var cands := CandidateIPs(net, serverID, clientID);
        id := FirstMatch(FromConnections(net, connections), serverID, clientID, ids, cands);
      }
      if id == -1 {
        assert ids[0] in Elements(ids);
        id := ids[0];
      }
    }

    /** Marks every row of the group but one as superseded. */
    method SupersedeOthers(ids: seq<int>, retain: int, now: Time)
      requires forall a :: 0 <= a < |ids| ==> ids[a] in rows
      modifies this`rows
      ensures rows == OthersRetired(old(rows), Elements(ids), retain, now)
    {
      ghost var before := rows;
      for a := 0 to |ids|
        invariant rows == OthersRetired(before, Elements(ids[..a]), retain, now)
      {
        assert ids[..a + 1] == ids[..a] + [ids[a]];
        ElementsAppend(ids[..a], ids[a]);
        if ids[a] != retain {
          rows := rows[ids[a] := Retired(rows[ids[a]], now)];
        }
        assert rows == OthersRetired(before, Elements(ids[..a + 1]), retain, now);
      }
      assert ids[..|ids|] == ids;
    }

    method Reconcile(net: Net, now: Time)
      requires Valid()
      modifies this`rows
      ensures Valid() && rows == Reconciled(FromConnections(net, Seen()), old(rows), now)
      ensures UniqueActive(rows)
    {
      ghost var e := FromConnections(net, Seen());
      DeleteDuplicates();
      ghost var d := rows;
      var todo := Groups();
      GroupsAreAll(e, d, todo, now);
      while todo != {}
        invariant Valid() && rows == Swept(e, d, todo, now)
        decreases |todo|
      {
        NonEmpty(todo);
        var g :| g in todo;
        ReconcileGroup(net, g, now, d, todo);
        todo := todo - {g};
      }
      IndexCanBeCreated(e, old(rows), now);
    }

    method ReconcileGroup(net: Net, g: (int, string), now: Time, ghost d: Table, ghost todo: set<(int, string)>)
      requires Valid() && g in todo && rows == Swept(FromConnections(net, Seen()), d, todo, now)
      modifies this`rows
      ensures Valid() && rows == Swept(FromConnections(net, Seen()), d, todo - {g}, now)
    {
      ghost var e := FromConnections(net, Seen());
      var ids := FetchActive(g.0, g.1);
      if |ids| <= 1 {
        SmallGroup(e, d, todo, g, ids, now);
        return;
      }
      var retain := Retain(net, g.0, g.1, ids);
      assert forall a :: 0 <= a < |ids| ==> ids[a] in Elements(ids);
      GroupIsSwept(e, d, todo, g, retain, now);
      SupersedeOthers(ids, retain, now);
    }
  }

  /** The elements of a set in ascending order. */
  ghost predicate Lists(ids: seq<int>, s: set<int>) {
    Elements(ids) == s && forall a, b :: 0 <= a < b < |ids| ==> ids[a] < ids[b]
  }

  ghost predicate Before(a: set<int>, b: set<int>) { forall i, j :: i in a && j in b ==> i < j }

  lemma ListsOneMore(all: set<int>, todo: set<int>, id: int, ids: seq<int>)
    requires todo <= all && Lists(ids, all - todo) && Before(all - todo, todo) && IsLeast(todo, id)
    ensures Lists(ids + [id], all - (todo - {id})) && Before(all - (todo - {id}), todo - {id})
  {
    ElementsAppend(ids, id);
    assert all - (todo - {id}) == (all - todo) + {id};
    assert forall a :: 0 <= a < |ids| ==> ids[a] in Elements(ids);
  }

  /** The lowest ids of the groups of identical active rows. */
  function Lowest(t: Table): set<int> {
    set id | id in t && t[id].status == Allocated && forall j :: j in t && SameLease(t[j], t[id]) ==> id <= j
  }

  lemma LowestAreNoDuplicates(t: Table)
    ensures (map id | id in t && !(t[id].status == Allocated && id !in Lowest(t)) :: t[id]) == Deduplicated(t)
  {
    forall id | id in t ensures (t[id].status == Allocated && id !in Lowest(t)) <==> IsDuplicate(t, id) {
    }
  }

  lemma FirstIsLowest(e: Evidence, t: Table, serverID: int, clientID: string, ids: seq<int>, i: nat, a: nat)
    requires Lists(ids, Active(t, serverID, clientID)) && i < |e.named(serverID, clientID)| && a < |ids|
    requires forall k, j :: 0 <= k < i && j in Active(t, serverID, clientID) ==> !e.matches(t[j].ip, e.named(serverID, clientID)[k])
    requires forall k :: 0 <= k < a ==> ids[k] in t && !e.matches(t[ids[k]].ip, e.named(serverID, clientID)[i])
    requires ids[a] in t && e.matches(t[ids[a]].ip, e.named(serverID, clientID)[i])
    ensures MatchesAt(e, t, serverID, clientID, i, ids[a])
  {
    assert ids[a] in Elements(ids);
    forall j | j in Elements(ids) && e.matches(t[j].ip, e.named(serverID, clientID)[i]) ensures ids[a] <= j {
      var k :| 0 <= k < |ids| && ids[k] == j;
    }
  }

  function OthersRetired(t: Table, ids: set<int>, retain: int, now: Time): Table {
    map id | id in t :: if id in ids && id != retain then Retired(t[id], now) else t[id]
  }

  /** Clients outside the groups have at most one active row, which survives. */
  lemma GroupsAreAll(e: Evidence, t: Table, groups: set<(int, string)>, now: Time)
    requires forall i, j :: i in t && j in t && i != j && SameActive(t[i], t[j]) ==> (t[i].serverID, t[i].clientID) in groups
    ensures Swept(e, t, groups, now) == t
  {
    forall id | id in t && t[id].status == Allocated && (t[id].serverID, t[id].clientID) !in groups
      ensures Survives(e, t, id)
    {
      var s, c := t[id].serverID, t[id].clientID;
      forall j | j in Active(t, s, c) ensures j == id {
        assert SameActive(t[id], t[j]);
      }
      assert Active(t, s, c) == {id};
      AloneIsChosen(e, t, s, c, id);
    }
  }

  /** While a group is still to be looked at, its active rows are the original ones. */
  lemma GroupUnchanged(e: Evidence, d: Table, todo: set<(int, string)>, g: (int, string), now: Time)
    requires g in todo
    ensures var rows := Swept(e, d, todo, now);
            && Active(rows, g.0, g.1) == Active(d, g.0, g.1)
            && forall id :: id in Active(d, g.0, g.1) ==> rows[id] == d[id]
  {
  }

  lemma ChosenIsLocal(e: Evidence, t: Table, u: Table, serverID: int, clientID: string, id: int)
    requires Active(t, serverID, clientID) == Active(u, serverID, clientID)
    requires forall j :: j in Active(t, serverID, clientID) ==> t[j] == u[j]
    requires Chosen(e, t, serverID, clientID, id)
    ensures Chosen(e, u, serverID, clientID, id)
  {
    if i :| MatchesAt(e, t, serverID, clientID, i, id) {
      assert MatchesAt(e, u, serverID, clientID, i, id);
    } else {
      assert NoneMatches(e, u, serverID, clientID);
    }
  }

  lemma GroupIsSwept(e: Evidence, d: Table, todo: set<(int, string)>, g: (int, string), retain: int, now: Time)
    requires g in todo
    requires var rows := Swept(e, d, todo, now);
             Chosen(e, rows, g.0, g.1, retain)
    ensures var rows := Swept(e, d, todo, now);
            OthersRetired(rows, Active(rows, g.0, g.1), retain, now) == Swept(e, d, todo - {g}, now)
  {
    var rows := Swept(e, d, todo, now);
    GroupUnchanged(e, d, todo, g, now);
    ChosenIsLocal(e, rows, d, g.0, g.1, retain);
    forall id | id in Active(d, g.0, g.1) ensures Survives(e, d, id) <==> id == retain {
      if Survives(e, d, id) {
        ChosenIsUnique(e, d, g.0, g.1, id, retain);
      }
    }
  }

  lemma SmallGroup(e: Evidence, d: Table, todo: set<(int, string)>, g: (int, string), ids: seq<int>, now: Time)
    requires g in todo && |ids| <= 1 && Elements(ids) == Active(Swept(e, d, todo, now), g.0, g.1)
    ensures Swept(e, d, todo - {g}, now) == Swept(e, d, todo, now)
  {
    GroupUnchanged(e, d, todo, g, now);
    forall id | id in Active(d, g.0, g.1) ensures Survives(e, d, id) {
      assert id in Elements(ids);
      assert Active(d, g.0, g.1) == {id};
      AloneIsChosen(e, d, g.0, g.1, id);
    }
  }
}
