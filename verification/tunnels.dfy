/** internal/database/backend_tunnels.go: the dedicated writers of a tunnel row, with the
    version that every one of them bumps and the compare-and-swap that relies on it. */
module Tunnels {
  import opened Options

  const CONNECTING := "connecting"
  const REASON_NONE := ""
  const REASON_ADMIN := "admin"

  datatype Row = Row(endpoint: string, enabled: bool, status: string, reason: string, version: int,
                     latency: int, lastCheck: Option<string>)

  type Table = map<int, Row>

  datatype Op =
    | Status(id: int, status: string, latency: int, now: string)
    | StatusWithReason(id: int, status: string, reason: string, latency: int, now: string)
    | Enabled(id: int, enabled: bool, reason: string)
    | Startup
    | Endpoint(id: int, endpoint: string)
    | CompareAndSwap(id: int, expectedStatus: string, expectedReason: string, expectedVersion: int,
                     status: string, reason: string, latency: int, now: string)

  predicate Names(op: Op, id: int) { op.Startup? || op.id == id }

  /** Whether a writer updates the row with this id. */
  predicate Touches(op: Op, id: int, r: Row) {
    Names(op, id) &&
    match op
    case Status(_, _, _, _) => r.enabled
    case StatusWithReason(_, _, reason, _, _) => r.enabled && reason != REASON_ADMIN
    case Enabled(_, _, _) => true
    case Startup => r.enabled
    case Endpoint(_, _) => true
    case CompareAndSwap(_, status, reason, version, _, _, _, _) =>
      r.enabled && r.status == status && r.reason == reason && r.version == version
  }

  /** The row it leaves. */
  function Written(op: Op, r: Row): Row {
    (match op
     case Status(_, status, latency, now) => r.(status := status, latency := latency, lastCheck := Some(now))
     case StatusWithReason(_, status, reason, latency, now) =>
       r.(status := status, reason := reason, latency := latency, lastCheck := Some(now))
     case Enabled(_, enabled, reason) => r.(enabled := enabled, reason := reason)
     case Startup => r.(status := CONNECTING, reason := REASON_NONE, latency := 0, lastCheck := None)
     case Endpoint(_, endpoint) => r.(endpoint := endpoint)
     case CompareAndSwap(_, _, _, _, status, reason, latency, now) =>
       r.(status := status, reason := reason, latency := latency, lastCheck := Some(now))
    ).(version := r.version + 1)
  }

  function Next(op: Op, id: int, r: Row): Row { if Touches(op, id, r) then Written(op, r) else r }

  /** One writer on the whole table. */
  function Apply(t: Table, op: Op): Table { map id | id in t :: Next(op, id, t[id]) }

  /** The table after the first n writers of an interleaving. */
  function At(t: Table, ops: seq<Op>, n: nat): Table
    requires n <= |ops|
  {
    if n == 0 then t else Apply(At(t, ops, n - 1), ops[n - 1])
  }

  lemma {:induction false} RowsStay(t: Table, ops: seq<Op>, n: nat)
    requires n <= |ops|
    ensures At(t, ops, n).Keys == t.Keys
  {
    if n > 0 { RowsStay(t, ops, n - 1); }
  }

  /** The row with this id after n writers. */
  ghost function RowAt(t: Table, ops: seq<Op>, id: int, n: nat): Row
    requires n <= |ops| && id in t
  {
    RowsStay(t, ops, n);
    At(t, ops, n)[id]
  }

  lemma RowSteps(t: Table, ops: seq<Op>, id: int, n: nat)
    requires n < |ops| && id in t
    ensures RowAt(t, ops, id, n + 1) == Next(ops[n], id, RowAt(t, ops, id, n))
  {
    RowsStay(t, ops, n);
  }

  /** Did the k-th writer update the row? */
  ghost predicate Touched(t: Table, ops: seq<Op>, id: int, k: nat)
    requires k < |ops| && id in t
  {
    Touches(ops[k], id, RowAt(t, ops, id, k))
  }

  ghost function TouchCount(t: Table, ops: seq<Op>, id: int, i: nat, j: nat): (n: nat)
    requires i <= j <= |ops| && id in t
  {
    if i == j then 0 else TouchCount(t, ops, id, i, j - 1) + if Touched(t, ops, id, j - 1) then 1 else 0
  }

  // ---- versions ------------------------------------------------------------

  /** The version counts the updates of the row. */
  lemma {:induction false} VersionCountsTouches(t: Table, ops: seq<Op>, id: int, i: nat, j: nat)
    requires i <= j <= |ops| && id in t
    ensures RowAt(t, ops, id, j).version == RowAt(t, ops, id, i).version + TouchCount(t, ops, id, i, j)
  {
    if i < j {
      VersionCountsTouches(t, ops, id, i, j - 1);
      RowSteps(t, ops, id, j - 1);
    }
  }

  lemma {:induction false} TouchIsCounted(t: Table, ops: seq<Op>, id: int, i: nat, k: nat, j: nat)
    requires i <= k < j <= |ops| && id in t && Touched(t, ops, id, k)
    ensures TouchCount(t, ops, id, i, j) > 0
  {
    if k < j - 1 { TouchIsCounted(t, ops, id, i, k, j - 1); }
  }

  lemma {:induction false} UntouchedRowStays(t: Table, ops: seq<Op>, id: int, i: nat, j: nat)
    requires i <= j <= |ops| && id in t
    requires forall k :: i <= k < j ==> !Touched(t, ops, id, k)
    ensures RowAt(t, ops, id, j) == RowAt(t, ops, id, i)
  {
    if i < j {
      UntouchedRowStays(t, ops, id, i, j - 1);
      RowSteps(t, ops, id, j - 1);
      assert !Touched(t, ops, id, j - 1);
    }
  }

  /** The version is that of an earlier moment exactly when no writer has updated the row
      since, and then the whole row is the same: a status that went away and came back
      carries another version. */
  lemma SameVersionIff(t: Table, ops: seq<Op>, id: int, i: nat, j: nat)
    requires i <= j <= |ops| && id in t
    ensures RowAt(t, ops, id, j).version == RowAt(t, ops, id, i).version
            <==> forall k :: i <= k < j ==> !Touched(t, ops, id, k)
    ensures RowAt(t, ops, id, j).version == RowAt(t, ops, id, i).version ==> RowAt(t, ops, id, j) == RowAt(t, ops, id, i)
  {
    VersionCountsTouches(t, ops, id, i, j);
    if k :| i <= k < j && Touched(t, ops, id, k) {
      TouchIsCounted(t, ops, id, i, k, j);
    } else {
      UntouchedRowStays(t, ops, id, i, j);
    }
  }

  // ---- compare-and-swap ----------------------------------------------------

  /** A compare-and-swap that holds an earlier version succeeds only on the very row that
      was read. */
  lemma SwapIsFreeOfABA(t: Table, ops: seq<Op>, id: int, i: nat, j: nat)
    requires i <= j < |ops| && id in t
    requires ops[j].CompareAndSwap? && ops[j].id == id && ops[j].expectedVersion == RowAt(t, ops, id, i).version
    requires Touched(t, ops, id, j)
    ensures forall k :: i <= k < j ==> !Touched(t, ops, id, k)
    ensures RowAt(t, ops, id, j) == RowAt(t, ops, id, i) && RowAt(t, ops, id, i).enabled
  {
    SameVersionIff(t, ops, id, i, j);
  }

  /** With the status, reason and version of an enabled row as read, it succeeds exactly
      when no other writer has updated the row since. */
  lemma SwapSucceedsIff(t: Table, ops: seq<Op>, id: int, i: nat, j: nat)
    requires i <= j < |ops| && id in t && ops[j].CompareAndSwap? && ops[j].id == id
    requires var r := RowAt(t, ops, id, i);
             r.enabled && ops[j].expectedStatus == r.status && ops[j].expectedReason == r.reason && ops[j].expectedVersion == r.version
    ensures Touched(t, ops, id, j) <==> forall k :: i <= k < j ==> !Touched(t, ops, id, k)
  {
    SameVersionIff(t, ops, id, i, j);
  }

  /** Of several swaps that hold the same version at most one succeeds. */
  lemma OneSwapPerVersion(t: Table, ops: seq<Op>, id: int, i: nat, j: nat)
    requires i < |ops| && j < |ops| && id in t
    requires ops[i].CompareAndSwap? && ops[j].CompareAndSwap? && ops[i].id == id && ops[j].id == id
    requires ops[i].expectedVersion == ops[j].expectedVersion
    requires Touched(t, ops, id, i) && Touched(t, ops, id, j)
    ensures i == j
  {
    if i < j { SameVersionIff(t, ops, id, i, j); }
    if j < i { SameVersionIff(t, ops, id, j, i); }
  }

  // ---- intent and health ---------------------------------------------------

  predicate SetsIntent(op: Op, id: int) { op.Enabled? && op.id == id }

  /** Only the administrative writer changes the intent. */
  lemma {:induction false} IntentStays(t: Table, ops: seq<Op>, id: int, i: nat, j: nat)
    requires i <= j <= |ops| && id in t
    requires forall k :: i <= k < j ==> !SetsIntent(ops[k], id)
    ensures RowAt(t, ops, id, j).enabled == RowAt(t, ops, id, i).enabled
  {
    if i < j {
      IntentStays(t, ops, id, i, j - 1);
      RowSteps(t, ops, id, j - 1);
      assert !SetsIntent(ops[j - 1], id);
    }
  }

  /** And it always does: the row carries the intent written last. */
  lemma IntentIsLastWritten(t: Table, ops: seq<Op>, id: int, k: nat, j: nat)
    requires k < j <= |ops| && id in t && SetsIntent(ops[k], id)
    requires forall l :: k < l < j ==> !SetsIntent(ops[l], id)
    ensures RowAt(t, ops, id, j).enabled == ops[k].enabled
  {
    RowSteps(t, ops, id, k);
    IntentStays(t, ops, id, k + 1, j);
  }

  /** While a tunnel is disabled no health writer changes its health: only the endpoint
      and the version may move. */
  lemma {:induction false} DisabledHealthStays(t: Table, ops: seq<Op>, id: int, i: nat, j: nat)
    requires i <= j <= |ops| && id in t && !RowAt(t, ops, id, i).enabled
    requires forall k :: i <= k < j ==> !SetsIntent(ops[k], id)
    ensures var a, b := RowAt(t, ops, id, i), RowAt(t, ops, id, j);
            b == a.(endpoint := b.endpoint, version := b.version)
  {
    if i < j {
      DisabledHealthStays(t, ops, id, i, j - 1);
      RowSteps(t, ops, id, j - 1);
      assert !SetsIntent(ops[j - 1], id);
    }
  }

  /** Changing the intent leaves the health of a tunnel as it was. */
  lemma IntentLeavesHealth(op: Op, id: int, r: Row)
    requires op.Enabled?
    ensures var r' := Next(op, id, r);
            r'.status == r.status && r'.latency == r.latency && r'.lastCheck == r.lastCheck && r'.endpoint == r.endpoint
  {
  }

  /** A swap prepared before a tunnel was switched off and on again fails. */
  lemma SwapAcrossIntentFails(t: Table, ops: seq<Op>, id: int, i: nat, k: nat, j: nat)
    requires i <= k < j < |ops| && id in t && SetsIntent(ops[k], id)
    requires ops[j].CompareAndSwap? && ops[j].id == id && ops[j].expectedVersion == RowAt(t, ops, id, i).version
    ensures RowAt(t, ops, id, j + 1) == RowAt(t, ops, id, j)
  {
    assert Touched(t, ops, id, k);
    if Touched(t, ops, id, j) { SwapIsFreeOfABA(t, ops, id, i, j); }
    RowSteps(t, ops, id, j);
  }

  /** The administrative reason comes from the administrative writer, or from a swap that
      is given it: unlike the other health writer, the swap does not refuse it. */
  lemma AdminReasonOrigin(op: Op, id: int, r: Row)
    requires r.reason != REASON_ADMIN
    ensures Next(op, id, r).reason == REASON_ADMIN
            <==> (op.Enabled? || op.CompareAndSwap?) && Touches(op, id, r) && op.reason == REASON_ADMIN
  {
  }

  /** After the startup reset every enabled tunnel is unknown, and the others are as they were. */
  lemma StartupForgetsHealth(t: Table, id: int)
    requires id in t
    ensures var r := Apply(t, Startup)[id];
            if t[id].enabled then r == Row(t[id].endpoint, true, CONNECTING, REASON_NONE, t[id].version + 1, 0, None)
            else r == t[id]
  {
  }

  // ---- what a writer leaves ------------------------------------------------

  /** Which rows a writer updates, told by the version: a health writer the enabled ones, if
      the reason is not administrative, a swap only with everything as expected, and the
      others every row. Whatever is not updated stays as it is. */
  lemma WriterUpdatesIff(op: Op, id: int, r: Row)
    ensures Next(op, id, r).version == r.version + 1
            <==> match op
                 case Status(i, _, _, _) => i == id && r.enabled
                 case StatusWithReason(i, _, reason, _, _) => i == id && r.enabled && reason != "admin"
                 case Enabled(i, _, _) => i == id
                 case Startup => r.enabled
                 case Endpoint(i, _) => i == id
                 case CompareAndSwap(i, status, reason, version, _, _, _, _) =>
                   i == id && r.enabled && r.status == status && r.reason == reason && r.version == version
    ensures Next(op, id, r).version != r.version + 1 ==> Next(op, id, r) == r
  {
  }

  /** The writers of health. */
  predicate WritesHealth(op: Op) { op.Status? || op.StatusWithReason? || op.CompareAndSwap? || op.Startup? }

  /** The row has the health that the writer was given; the start-up reset gives none. */
  predicate HasHealthOf(r: Row, op: Op)
    requires WritesHealth(op)
  {
    match op
    case Status(_, status, latency, now) => r.status == status && r.latency == latency && r.lastCheck == Some(now)
    case StatusWithReason(_, status, _, latency, now) => r.status == status && r.latency == latency && r.lastCheck == Some(now)
    case CompareAndSwap(_, _, _, _, status, _, latency, now) => r.status == status && r.latency == latency && r.lastCheck == Some(now)
    case Startup => r.status == "connecting" && r.latency == 0 && r.lastCheck == None
  }

  predicate SameHealth(a: Row, b: Row) { a.status == b.status && a.latency == b.latency && a.lastCheck == b.lastCheck }

  lemma {:induction false} HealthStays(t: Table, ops: seq<Op>, id: int, i: nat, j: nat)
    requires i <= j <= |ops| && id in t
    requires forall k :: i <= k < j && WritesHealth(ops[k]) ==> !Touched(t, ops, id, k)
    ensures SameHealth(RowAt(t, ops, id, j), RowAt(t, ops, id, i))
  {
    if i < j {
      HealthStays(t, ops, id, i, j - 1);
      RowSteps(t, ops, id, j - 1);
      assert WritesHealth(ops[j - 1]) ==> !Touched(t, ops, id, j - 1);
    }
  }

  /** A row has the health that was written to it last: that of the last health writer that
      updated it. */
  lemma HealthIsLastWritten(t: Table, ops: seq<Op>, id: int, k: nat, j: nat)
    requires k < j <= |ops| && id in t && WritesHealth(ops[k]) && Touched(t, ops, id, k)
    requires forall l :: k < l < j && WritesHealth(ops[l]) ==> !Touched(t, ops, id, l)
    ensures HasHealthOf(RowAt(t, ops, id, j), ops[k])
  {
    RowSteps(t, ops, id, k);
    HealthStays(t, ops, id, k + 1, j);
  }

  /** The reason is written by the writers that are given one, and cleared at start-up; the
      endpoint by its own writer; and nothing else changes either. */
  lemma ReasonAndEndpoint(op: Op, id: int, r: Row)
    requires Touches(op, id, r)
    ensures Next(op, id, r).reason == match op
              case StatusWithReason(_, _, reason, _, _) => reason
              case Enabled(_, _, reason) => reason
              case CompareAndSwap(_, _, _, _, _, reason, _, _) => reason
              case Startup => ""
              case _ => r.reason
    ensures Next(op, id, r).endpoint == if op.Endpoint? then op.endpoint else r.endpoint
  {
  }

  // ---- the table as an object ----------------------------------------------

  class TunnelDB {
    var rows: Table

    constructor (rows: Table)
      ensures this.rows == rows
    {
      this.rows := rows;
    }

    method UpdateBackendTunnelStatus(id: int, status: string, latency: int, now: string)
      modifies this
      ensures rows == Apply(old(rows), Status(id, status, latency, now))
    {
      if id in rows && rows[id].enabled {
        var r := rows[id];
        rows := rows[id := r.(status := status, latency := latency, lastCheck := Some(now), version := r.version + 1)];
      }
    }

    method UpdateBackendTunnelStatusWithReason(id: int, status: string, reason: string, latency: int, now: string)
      returns (ok: bool)
      modifies this
      ensures rows == Apply(old(rows), StatusWithReason(id, status, reason, latency, now))
      ensures ok <==> reason != REASON_ADMIN
    {
      if reason == REASON_ADMIN {
        return false;
      }
      if id in rows && rows[id].enabled {
        var r := rows[id];
        rows := rows[id := r.(status := status, reason := reason, latency := latency, lastCheck := Some(now),
                              version := r.version + 1)];
      }
      ok := true;
    }

    method UpdateBackendTunnelEnabled(id: int, enabled: bool, reason: string)
      modifies this
      ensures rows == Apply(old(rows), Enabled(id, enabled, reason))
    {
      if id in rows {
        var r := rows[id];
        rows := rows[id := r.(enabled := enabled, reason := reason, version := r.version + 1)];
      }
    }

    method ResetEnabledBackendTunnelHealthForStartup()
      modifies this
      ensures rows == Apply(old(rows), Startup)
    {
      rows := map id | id in rows ::
        if rows[id].enabled
        then rows[id].(status := CONNECTING, reason := REASON_NONE, latency := 0, lastCheck := None, version := rows[id].version + 1)
        else rows[id];
    }

    method UpdateBackendTunnelEndpoint(id: int, endpoint: string)
      modifies this
      ensures rows == Apply(old(rows), Endpoint(id, endpoint))
    {
      if id in rows {
        var r := rows[id];
        rows := rows[id := r.(endpoint := endpoint, version := r.version + 1)];
      }
    }

    method CompareAndSwapTunnelStatus(id: int, expectedStatus: string, expectedReason: string, expectedVersion: int,
                                      status: string, reason: string, latency: int, now: string) returns (swapped: bool)
      modifies this
      ensures var op := CompareAndSwap(id, expectedStatus, expectedReason, expectedVersion, status, reason, latency, now);
              rows == Apply(old(rows), op) && (swapped <==> id in old(rows) && Touches(op, id, old(rows)[id]))
    {
      swapped := id in rows && rows[id].enabled && rows[id].status == expectedStatus && rows[id].reason == expectedReason
                 && rows[id].version == expectedVersion;
      if swapped {
        var r := rows[id];
        rows := rows[id := r.(status := status, reason := reason, latency := latency, lastCheck := Some(now),
                              version := r.version + 1)];
      }
    }
  }
}
