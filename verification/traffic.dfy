/** internal/database/users.go and peer_changes.go: the traffic counters of a user, the two
    snapshot-and-subtract resets, and the notification of quota changes. Every statement
    is atomic under the write lock. */
module Traffic {
  import opened Options

  datatype Strategy = Never | Daily | Weekly | Monthly

  /** The stored text of the time of a reset; absent before the first one. */
  type Marker = Option<string>

  datatype Totals = Totals(used: int, total: int, totalRx: int, totalTx: int, monthlyRx: int, monthlyTx: int,
                           limit: int, enabled: bool)

  datatype User = User(totals: Totals, strategy: Strategy, lastReset: Marker, monthlyReset: Marker) {
    /** The verdict that denies access. */
    predicate OverQuota() { totals.limit > 0 && totals.used >= totals.limit }
  }

  datatype Op =
    | Add(rx: int, tx: int)
    | ResetMonthly(expected: Marker, snapshot: Totals, resetAt: string)
    | ResetPeriod(expected: Marker, expectedStrategy: Strategy, snapshotUsed: int, resetAt: string)
    | Configure(limit: int, enabled: bool, strategy: Strategy)

  function AtLeastZero(x: int): int { if x > 0 then x else 0 }

  // ---- the statements on one row -------------------------------------------

  function AddTo(t: Totals, rx: int, tx: int): Totals {
    t.(used := t.used + rx + tx, total := t.total + rx + tx, totalRx := t.totalRx + rx, totalTx := t.totalTx + tx,
       monthlyRx := t.monthlyRx + rx, monthlyTx := t.monthlyTx + tx)
  }

  function SubtractMonth(u: User, snapshot: Totals, resetAt: string): User {
    var t := u.totals.(monthlyRx := AtLeastZero(u.totals.monthlyRx - snapshot.monthlyRx),
                       monthlyTx := AtLeastZero(u.totals.monthlyTx - snapshot.monthlyTx));
    if u.strategy == Monthly then
      u.(totals := t.(used := AtLeastZero(u.totals.used - snapshot.used)), lastReset := Some(resetAt), monthlyReset := Some(resetAt))
    else u.(totals := t, monthlyReset := Some(resetAt))
  }

  function SubtractPeriod(u: User, snapshotUsed: int, resetAt: string): User {
    u.(totals := u.totals.(used := AtLeastZero(u.totals.used - snapshotUsed)), lastReset := Some(resetAt))
  }

  /** Whether the WHERE clause of the statement accepts the row. */
  predicate Takes(u: User, op: Op) {
    match op
    case Add(_, _) => true
    case ResetMonthly(expected, _, _) => u.monthlyReset == expected
    case ResetPeriod(expected, strategy, _, _) => u.lastReset == expected && u.strategy == strategy
    case Configure(_, _, _) => true
  }

  function Apply(u: User, op: Op): User {
    if !Takes(u, op) then u
    else match op
      case Add(rx, tx) => u.(totals := AddTo(u.totals, rx, tx))
      case ResetMonthly(_, snapshot, resetAt) => SubtractMonth(u, snapshot, resetAt)
      case ResetPeriod(_, _, snapshotUsed, resetAt) => SubtractPeriod(u, snapshotUsed, resetAt)
      case Configure(limit, enabled, strategy) => u.(totals := u.totals.(limit := limit, enabled := enabled), strategy := strategy)
  }

  // ---- interleavings -------------------------------------------------------

  /** The row after the first n statements. */
  function At(start: User, ops: seq<Op>, n: nat): User
    requires n <= |ops|
  {
    if n == 0 then start else Apply(At(start, ops, n - 1), ops[n - 1])
  }

  function RxOf(op: Op): int { if op.Add? then op.rx else 0 }
  function TxOf(op: Op): int { if op.Add? then op.tx else 0 }

  /** The bytes added by the statements from i up to j. */
  function AddedRx(ops: seq<Op>, i: nat, j: nat): int
    requires i <= j <= |ops|
  {
    if i == j then 0 else AddedRx(ops, i, j - 1) + RxOf(ops[j - 1])
  }

  function AddedTx(ops: seq<Op>, i: nat, j: nat): int
    requires i <= j <= |ops|
  {
    if i == j then 0 else AddedTx(ops, i, j - 1) + TxOf(ops[j - 1])
  }

  /** What the resets from i up to j took away from the usage. */
  function Removed(start: User, ops: seq<Op>, i: nat, j: nat): int
    requires i <= j <= |ops|
  {
    if i == j then 0
    else
      var before := At(start, ops, j - 1);
      Removed(start, ops, i, j - 1)
      + if ops[j - 1].Add? then 0 else before.totals.used - At(start, ops, j).totals.used
  }

  /** Deltas are never negative. */
  ghost predicate Growing(ops: seq<Op>) {
    forall k :: 0 <= k < |ops| && ops[k].Add? ==> ops[k].rx >= 0 && ops[k].tx >= 0
  }

  /** Nor are the amounts that resets subtract. */
  ghost predicate Subtracting(ops: seq<Op>) {
    forall k :: 0 <= k < |ops| ==>
      (ops[k].ResetMonthly? ==> ops[k].snapshot.used >= 0) && (ops[k].ResetPeriod? ==> ops[k].snapshotUsed >= 0)
  }

  // ---- conservation --------------------------------------------------------

  /** The lifetime counters grow by exactly the added bytes, whatever resets run between. */
  lemma {:induction false} TotalsAreConserved(start: User, ops: seq<Op>, n: nat)
    requires n <= |ops|
    ensures var t := At(start, ops, n).totals;
            && t.totalRx == start.totals.totalRx + AddedRx(ops, 0, n)
            && t.totalTx == start.totals.totalTx + AddedTx(ops, 0, n)
            && t.total == start.totals.total + AddedRx(ops, 0, n) + AddedTx(ops, 0, n)
  {
    if n > 0 { TotalsAreConserved(start, ops, n - 1); }
  }

  /** So the total stays the sum of its two directions. */
  lemma TotalIsSumOfDirections(start: User, ops: seq<Op>, n: nat)
    requires n <= |ops| && start.totals.total == start.totals.totalRx + start.totals.totalTx
    ensures At(start, ops, n).totals.total == At(start, ops, n).totals.totalRx + At(start, ops, n).totals.totalTx
  {
    TotalsAreConserved(start, ops, n);
  }

  /** Usage is what was there, plus what was added, less what the resets removed. */
  lemma {:induction false} UsageIsConserved(start: User, ops: seq<Op>, i: nat, j: nat)
    requires i <= j <= |ops|
    ensures At(start, ops, j).totals.used
            == At(start, ops, i).totals.used + AddedRx(ops, i, j) + AddedTx(ops, i, j) - Removed(start, ops, i, j)
  {
    if i < j { UsageIsConserved(start, ops, i, j - 1); }
  }

  /** No counter becomes negative, and the period counters never exceed the totals. */
  ghost predicate Bounded(t: Totals) {
    0 <= t.used && 0 <= t.monthlyRx <= t.totalRx && 0 <= t.monthlyTx <= t.totalTx
  }

  lemma {:induction false} CountersStayBounded(start: User, ops: seq<Op>, n: nat)
    requires n <= |ops| && Bounded(start.totals) && Growing(ops)
    requires forall k :: 0 <= k < |ops| && ops[k].ResetMonthly? ==> ops[k].snapshot.monthlyRx >= 0 && ops[k].snapshot.monthlyTx >= 0
    ensures Bounded(At(start, ops, n).totals)
  {
    if n > 0 { CountersStayBounded(start, ops, n - 1); }
  }

  lemma {:induction false} AddedIsNonNegative(ops: seq<Op>, i: nat, j: nat)
    requires i <= j <= |ops| && Growing(ops)
    ensures AddedRx(ops, i, j) >= 0 && AddedTx(ops, i, j) >= 0
  {
    if i < j { AddedIsNonNegative(ops, i, j - 1); }
  }

  // ---- markers -------------------------------------------------------------

  /** The statements that take something off the monthly counters, and off the usage. */
  predicate ResetsMonth(u: User, op: Op) { op.ResetMonthly? && Takes(u, op) }

  predicate ResetsUsage(u: User, op: Op) {
    Takes(u, op) && (op.ResetPeriod? || (op.ResetMonthly? && u.strategy == Monthly))
  }

  /** No monthly reset that takes effect from i up to j writes back the marker found at i.
      Resets that are refused, and the other marker, may carry any time. */
  ghost predicate MonthMovesOn(start: User, ops: seq<Op>, i: nat, j: nat)
    requires i <= j <= |ops|
  {
    forall l :: i <= l < j && ResetsMonth(At(start, ops, l), ops[l]) ==> Some(ops[l].resetAt) != At(start, ops, i).monthlyReset
  }

  /** The same for the resets of the usage and their marker. */
  ghost predicate UsageMovesOn(start: User, ops: seq<Op>, i: nat, j: nat)
    requires i <= j <= |ops|
  {
    forall l :: i <= l < j && ResetsUsage(At(start, ops, l), ops[l]) ==> Some(ops[l].resetAt) != At(start, ops, i).lastReset
  }

  /** Then the monthly marker is that of i exactly while no reset has taken effect. */
  lemma {:induction false} MonthMarkerIff(start: User, ops: seq<Op>, i: nat, j: nat)
    requires i <= j <= |ops| && MonthMovesOn(start, ops, i, j)
    ensures At(start, ops, j).monthlyReset == At(start, ops, i).monthlyReset
            <==> forall l :: i <= l < j ==> !ResetsMonth(At(start, ops, l), ops[l])
  {
    if i < j {
      MonthMarkerIff(start, ops, i, j - 1);
      MonthMarkerStep(At(start, ops, j - 1), ops[j - 1]);
    }
  }

  lemma MonthMarkerStep(u: User, op: Op)
    ensures Apply(u, op).monthlyReset == if ResetsMonth(u, op) then Some(op.resetAt) else u.monthlyReset
  {
  }

  lemma {:induction false} UsageMarkerIff(start: User, ops: seq<Op>, i: nat, j: nat)
    requires i <= j <= |ops| && UsageMovesOn(start, ops, i, j)
    ensures At(start, ops, j).lastReset == At(start, ops, i).lastReset
            <==> forall l :: i <= l < j ==> !ResetsUsage(At(start, ops, l), ops[l])
  {
    if i < j {
      UsageMarkerIff(start, ops, i, j - 1);
      UsageMarkerStep(At(start, ops, j - 1), ops[j - 1]);
    }
  }

  lemma UsageMarkerStep(u: User, op: Op)
    ensures Apply(u, op).lastReset == if ResetsUsage(u, op) then Some(op.resetAt) else u.lastReset
  {
  }

  /** After a monthly reset has taken effect, no other that holds the same marker does. */
  lemma OneMonthlyResetPerMarker(start: User, ops: seq<Op>, i: nat, j: nat)
    requires i < j < |ops| && MonthMovesOn(start, ops, i, j)
    requires ResetsMonth(At(start, ops, i), ops[i]) && ops[j].ResetMonthly? && ops[j].expected == ops[i].expected
    ensures !Takes(At(start, ops, j), ops[j])
  {
    MonthMarkerIff(start, ops, i, j);
  }

  /** The same for period resets. */
  lemma OnePeriodResetPerMarker(start: User, ops: seq<Op>, i: nat, j: nat)
    requires i < j < |ops| && UsageMovesOn(start, ops, i, j)
    requires ops[i].ResetPeriod? && Takes(At(start, ops, i), ops[i])
    requires ops[j].ResetPeriod? && ops[j].expected == ops[i].expected
    ensures !Takes(At(start, ops, j), ops[j])
  {
    UsageMarkerIff(start, ops, i, j);
  }

  /** Monthly resets that take effect write different times, none of them the first one:
      more than the theorems need. */
  ghost predicate FreshMonths(start: User, ops: seq<Op>) {
    && (forall k :: 0 <= k < |ops| && ResetsMonth(At(start, ops, k), ops[k]) ==> Some(ops[k].resetAt) != start.monthlyReset)
    && (forall k, l :: 0 <= k < l < |ops| && ResetsMonth(At(start, ops, k), ops[k]) && ResetsMonth(At(start, ops, l), ops[l])
          ==> ops[k].resetAt != ops[l].resetAt)
  }

  lemma {:induction false} MonthMarkerOrigin(start: User, ops: seq<Op>, i: nat)
    requires i <= |ops|
    ensures At(start, ops, i).monthlyReset == start.monthlyReset
            || exists k :: 0 <= k < i && ResetsMonth(At(start, ops, k), ops[k]) && At(start, ops, i).monthlyReset == Some(ops[k].resetAt)
  {
    if i > 0 {
      MonthMarkerOrigin(start, ops, i - 1);
      MonthMarkerStep(At(start, ops, i - 1), ops[i - 1]);
    }
  }

  lemma FreshMonthsMoveOn(start: User, ops: seq<Op>, i: nat, j: nat)
    requires FreshMonths(start, ops) && i <= j <= |ops|
    ensures MonthMovesOn(start, ops, i, j)
  {
    MonthMarkerOrigin(start, ops, i);
  }

  /** Freshness is needed exactly there: a second reset with the same marker, right after
      the first, is accepted if and only if the first wrote back the marker it found. */
  lemma RepeatedResetTakesIff(u: User, first: Op, second: Op)
    requires first.ResetMonthly? && second.ResetMonthly? && first.expected == second.expected && Takes(u, first)
    ensures Takes(Apply(u, first), second) <==> first.expected == Some(first.resetAt)
  {
  }

  ghost predicate MonthUnchanged(start: User, ops: seq<Op>, i: nat, j: nat)
    requires i <= j <= |ops|
  {
    forall l :: i <= l < j ==> At(start, ops, l + 1).monthlyReset == At(start, ops, l).monthlyReset
  }

  /** A monthly reset with the marker of an earlier moment, absent ones included, puts in its
      own if and only if the marker has not changed since; else it changes nothing. */
  lemma MonthlyResetTakesIff(start: User, ops: seq<Op>, i: nat, j: nat)
    requires i <= j < |ops| && MonthMovesOn(start, ops, i, j) && ops[j].ResetMonthly?
    requires ops[j].expected == At(start, ops, i).monthlyReset && Some(ops[j].resetAt) != At(start, ops, j).monthlyReset
    ensures At(start, ops, j + 1).monthlyReset == Some(ops[j].resetAt) <==> MonthUnchanged(start, ops, i, j)
    ensures At(start, ops, j + 1).monthlyReset != Some(ops[j].resetAt) ==> At(start, ops, j + 1) == At(start, ops, j)
  {
    UnchangedIff(start, ops, i, j);
    MonthMarkerStep(At(start, ops, j), ops[j]);
  }

  lemma UnchangedIff(start: User, ops: seq<Op>, i: nat, j: nat)
    requires i <= j <= |ops| && MonthMovesOn(start, ops, i, j)
    ensures MonthUnchanged(start, ops, i, j) <==> At(start, ops, j).monthlyReset == At(start, ops, i).monthlyReset
  {
    MonthMarkerIff(start, ops, i, j);
    if At(start, ops, j).monthlyReset == At(start, ops, i).monthlyReset {
      forall l | i <= l < j ensures At(start, ops, l + 1).monthlyReset == At(start, ops, l).monthlyReset {
        assert !ResetsMonth(At(start, ops, l), ops[l]);
        MonthMarkerStep(At(start, ops, l), ops[l]);
      }
    }
    if MonthUnchanged(start, ops, i, j) { SameMonthMarker(start, ops, i, j); }
  }

  lemma {:induction false} SameMonthMarker(start: User, ops: seq<Op>, i: nat, j: nat)
    requires i <= j <= |ops|
    requires forall l :: i <= l < j ==> At(start, ops, l + 1).monthlyReset == At(start, ops, l).monthlyReset
    ensures At(start, ops, j).monthlyReset == At(start, ops, i).monthlyReset
  {
    if i < j {
      SameMonthMarker(start, ops, i, j - 1);
      assert At(start, ops, j - 1 + 1).monthlyReset == At(start, ops, j - 1).monthlyReset;
    }
  }

  /** A period reset takes effect exactly with the marker and the strategy it finds. */
  lemma PeriodResetTakesIff(u: User, op: Op)
    requires op.ResetPeriod? && Some(op.resetAt) != u.lastReset
    ensures Apply(u, op).lastReset == Some(op.resetAt) <==> u.lastReset == op.expected && u.strategy == op.expectedStrategy
    ensures Apply(u, op).lastReset != Some(op.resetAt) ==> Apply(u, op) == u
    ensures Apply(u, op) == u.(totals := u.totals.(used := Apply(u, op).totals.used), lastReset := Apply(u, op).lastReset)
  {
  }

  /** A monthly reset touches the usage of users on the monthly strategy only. */
  lemma MonthlyResetSparesUsage(u: User, op: Op)
    requires op.ResetMonthly? && u.strategy != Monthly
    ensures Apply(u, op).totals.used == u.totals.used && Apply(u, op).lastReset == u.lastReset
  {
  }

  // ---- what a reset leaves -------------------------------------------------

  lemma {:induction false} MonthlyGrows(start: User, ops: seq<Op>, i: nat, j: nat)
    requires i <= j <= |ops|
    requires forall l :: i <= l < j ==> !ResetsMonth(At(start, ops, l), ops[l])
    ensures At(start, ops, j).totals.monthlyRx == At(start, ops, i).totals.monthlyRx + AddedRx(ops, i, j)
    ensures At(start, ops, j).totals.monthlyTx == At(start, ops, i).totals.monthlyTx + AddedTx(ops, i, j)
  {
    if i < j {
      MonthlyGrows(start, ops, i, j - 1);
      assert !ResetsMonth(At(start, ops, j - 1), ops[j - 1]);
    }
  }

  /** A monthly reset that takes effect with the monthly counters of an earlier moment
      leaves in them exactly the bytes added since. */
  lemma MonthlyResetKeepsLaterBytes(start: User, ops: seq<Op>, i: nat, j: nat)
    requires i <= j < |ops| && Growing(ops) && MonthMovesOn(start, ops, i, j)
    requires ResetsMonth(At(start, ops, j), ops[j]) && ops[j].expected == At(start, ops, i).monthlyReset
    requires ops[j].snapshot.monthlyRx == At(start, ops, i).totals.monthlyRx
    requires ops[j].snapshot.monthlyTx == At(start, ops, i).totals.monthlyTx
    ensures At(start, ops, j + 1).totals.monthlyRx == AddedRx(ops, i, j)
    ensures At(start, ops, j + 1).totals.monthlyTx == AddedTx(ops, i, j)
  {
    MonthMarkerIff(start, ops, i, j);
    assert forall l :: i <= l < j ==> !ResetsMonth(At(start, ops, l), ops[l]);
    MonthlyGrows(start, ops, i, j);
    AddedIsNonNegative(ops, i, j);
  }

  lemma {:induction false} NothingRemoved(start: User, ops: seq<Op>, i: nat, j: nat)
    requires i <= j <= |ops|
    requires forall l :: i <= l < j ==> !ResetsUsage(At(start, ops, l), ops[l])
    ensures Removed(start, ops, i, j) == 0
  {
    if i < j {
      NothingRemoved(start, ops, i, j - 1);
      assert !ResetsUsage(At(start, ops, j - 1), ops[j - 1]);
    }
  }

  /** While the marker of the last reset is unchanged nothing was taken off the usage. */
  lemma UnchangedMarkerRemovesNothing(start: User, ops: seq<Op>, i: nat, j: nat)
    requires i <= j <= |ops| && UsageMovesOn(start, ops, i, j)
    requires At(start, ops, j).lastReset == At(start, ops, i).lastReset
    ensures Removed(start, ops, i, j) == 0
  {
    UsageMarkerIff(start, ops, i, j);
    NothingRemoved(start, ops, i, j);
  }

  /** A period reset that takes effect with the usage of an earlier moment leaves exactly
      the usage added since. */
  lemma PeriodResetKeepsLaterBytes(start: User, ops: seq<Op>, i: nat, j: nat)
    requires i <= j < |ops| && Growing(ops) && UsageMovesOn(start, ops, i, j)
    requires ops[j].ResetPeriod? && Takes(At(start, ops, j), ops[j])
    requires ops[j].expected == At(start, ops, i).lastReset && ops[j].snapshotUsed == At(start, ops, i).totals.used
    ensures At(start, ops, j + 1).totals.used == AddedRx(ops, i, j) + AddedTx(ops, i, j)
  {
    UnchangedMarkerRemovesNothing(start, ops, i, j);
    UsageIsConserved(start, ops, i, j);
    AddedIsNonNegative(ops, i, j);
  }

  lemma {:induction false} RemovedIsNonNegative(start: User, ops: seq<Op>, i: nat, j: nat)
    requires i <= j <= |ops| && Subtracting(ops) && Growing(ops) && start.totals.used >= 0
    ensures Removed(start, ops, i, j) >= 0 && At(start, ops, i).totals.used >= 0 && At(start, ops, j).totals.used >= 0
  {
    UsageStaysNonNegative(start, ops, j);
    UsageStaysNonNegative(start, ops, i);
    if i < j {
      RemovedIsNonNegative(start, ops, i, j - 1);
    }
  }

  lemma {:induction false} UsageStaysNonNegative(start: User, ops: seq<Op>, n: nat)
    requires n <= |ops| && Growing(ops) && start.totals.used >= 0
    ensures At(start, ops, n).totals.used >= 0
  {
    if n > 0 { UsageStaysNonNegative(start, ops, n - 1); }
  }

  lemma {:induction false} AddedSplits(ops: seq<Op>, i: nat, j: nat)
    requires i <= j <= |ops|
    ensures AddedRx(ops, 0, j) == AddedRx(ops, 0, i) + AddedRx(ops, i, j)
    ensures AddedTx(ops, 0, j) == AddedTx(ops, 0, i) + AddedTx(ops, i, j)
  {
    if i < j { AddedSplits(ops, i, j - 1); }
  }

  /** The lifetime total tells what was added between two moments. */
  lemma TotalTellsAdded(start: User, ops: seq<Op>, i: nat, j: nat)
    requires i <= j <= |ops|
    ensures At(start, ops, j).totals.total - At(start, ops, i).totals.total == AddedRx(ops, i, j) + AddedTx(ops, i, j)
  {
    TotalsAreConserved(start, ops, i);
    TotalsAreConserved(start, ops, j);
    AddedSplits(ops, i, j);
  }

  /** The monthly reset of a user on the monthly strategy also subtracts the usage of the
      snapshot, but its guard is the monthly marker alone. It leaves exactly the usage
      added since the snapshot if and only if, on the row it finds, usage has grown as
      much as the lifetime total, or the total has not grown. */
  lemma MonthlyResetKeepsLaterUsageIff(start: User, ops: seq<Op>, i: nat, j: nat)
    requires Growing(ops) && Subtracting(ops) && start.totals.used >= 0 && i <= j < |ops|
    requires ResetsMonth(At(start, ops, j), ops[j]) && At(start, ops, j).strategy == Monthly
    requires ops[j].snapshot.used == At(start, ops, i).totals.used
    ensures var was, found := At(start, ops, i).totals, At(start, ops, j).totals;
            At(start, ops, j + 1).totals.used == AddedRx(ops, i, j) + AddedTx(ops, i, j)
            <==> found.used - was.used == found.total - was.total || found.total == was.total
  {
    TotalTellsAdded(start, ops, i, j);
    UsageIsConserved(start, ops, i, j);
    RemovedIsNonNegative(start, ops, i, j);
    AddedIsNonNegative(ops, i, j);
  }

  /** In particular when the marker of the last reset is still that of the snapshot. */
  lemma MonthlyResetKeepsLaterUsage(start: User, ops: seq<Op>, i: nat, j: nat)
    requires i <= j < |ops| && Growing(ops) && UsageMovesOn(start, ops, i, j)
    requires ResetsMonth(At(start, ops, j), ops[j]) && At(start, ops, j).strategy == Monthly
    requires ops[j].snapshot.used == At(start, ops, i).totals.used && At(start, ops, j).lastReset == At(start, ops, i).lastReset
    ensures At(start, ops, j + 1).totals.used == AddedRx(ops, i, j) + AddedTx(ops, i, j)
  {
    UnchangedMarkerRemovesNothing(start, ops, i, j);
    UsageIsConserved(start, ops, i, j);
    AddedIsNonNegative(ops, i, j);
  }

  /** A snapshot as the orchestrator takes it: usage and monthly counters, nothing else. */
  function RolloverSnapshot(t: Totals): Totals { Totals(t.used, 0, 0, 0, t.monthlyRx, t.monthlyTx, 0, false) }

  /** The failing case: a snapshot of 10 bytes, a period reset that removes them, 7 more
      bytes, and a monthly reset with that snapshot. The 7 bytes are gone. */
  lemma LaterUsageIsLost() returns (start: User, ops: seq<Op>)
    ensures Growing(ops) && Subtracting(ops) && |ops| == 3
    ensures MonthMovesOn(start, ops, 0, 2) && UsageMovesOn(start, ops, 0, 2)
    ensures ResetsMonth(At(start, ops, 2), ops[2]) && At(start, ops, 2).strategy == Monthly
    ensures ops[2].snapshot == RolloverSnapshot(start.totals) && ops[2].expected == start.monthlyReset
    ensures AddedRx(ops, 0, 2) + AddedTx(ops, 0, 2) == 7 && At(start, ops, 3).totals.used == 0
    ensures At(start, ops, 3).totals.monthlyRx == 7
  {
    var t := Totals(10, 10, 10, 0, 10, 0, 0, true);
    start := User(t, Monthly, Some("January"), Some("January"));
    var period := ResetPeriod(Some("January"), Monthly, 10, "February");
    ops := [period, Add(7, 0), ResetMonthly(Some("January"), RolloverSnapshot(t), "March")];
    assert At(start, ops, 1) == Apply(start, period);
    assert At(start, ops, 2) == Apply(At(start, ops, 1), ops[1]);
    assert At(start, ops, 3) == Apply(At(start, ops, 2), ops[2]);
    assert AddedRx(ops, 0, 1) == 0 && AddedTx(ops, 0, 1) == 0;
    assert "January"[0] != "February"[0];
  }

  // ---- notifications -------------------------------------------------------

  /** Whether the listener is called. The previous usage is computed back from the new one. */
  predicate Notifies(u: User, op: Op) {
    match op
    case Add(rx, tx) =>
      var after := AddTo(u.totals, rx, tx);
      after.limit > 0 && (after.used - rx - tx >= after.limit) != (after.used >= after.limit)
    case ResetMonthly(_, _, _) => Takes(u, op)
    case ResetPeriod(_, _, _, _) => Takes(u, op)
    case Configure(_, _, _) => false
  }

  /** Every change of the verdict made by an addition or a reset is notified; for additions
      there is no other notification. */
  lemma VerdictChangesAreNotified(u: User, op: Op)
    requires !op.Configure?
    ensures u.OverQuota() != Apply(u, op).OverQuota() ==> Notifies(u, op)
    ensures op.Add? && Notifies(u, op) ==> u.OverQuota() != Apply(u, op).OverQuota()
  {
  }

  predicate Verdict(start: User, ops: seq<Op>, n: nat)
    requires n <= |ops|
  {
    At(start, ops, n).OverQuota()
  }

  /** So between two points of an interleaving with different verdicts and no change of
      configuration the listener was called. */
  lemma {:induction false} DifferentVerdictsAreNotified(start: User, ops: seq<Op>, i: nat, j: nat) returns (k: nat)
    requires i <= j <= |ops| && Verdict(start, ops, i) != Verdict(start, ops, j)
    requires forall l :: i <= l < j ==> !ops[l].Configure?
    ensures i <= k < j && Notifies(At(start, ops, k), ops[k])
  {
    VerdictChangesAreNotified(At(start, ops, j - 1), ops[j - 1]);
    if Verdict(start, ops, j - 1) != Verdict(start, ops, j) {
      k := j - 1;
    } else {
      k := DifferentVerdictsAreNotified(start, ops, i, j - 1);
    }
  }

  /** Resets never put a user over its quota, and additions never take one below it. */
  lemma VerdictMovesOneWay(u: User, op: Op)
    requires u.totals.used >= 0
    requires op.Add? ==> op.rx >= 0 && op.tx >= 0
    requires (op.ResetMonthly? ==> op.snapshot.used >= 0) && (op.ResetPeriod? ==> op.snapshotUsed >= 0)
    ensures !op.Add? && !op.Configure? && Apply(u, op).OverQuota() ==> u.OverQuota()
    ensures op.Add? && u.OverQuota() ==> Apply(u, op).OverQuota()
  {
  }

  // ---- the table as an object ----------------------------------------------

  class UserDB {
    var users: map<string, User>
    /** Calls of the peer listener. */
    var notifications: nat

    constructor (users: map<string, User>)
      ensures this.users == users && notifications == 0
    {
      this.users, notifications := users, 0;
    }

    method NotifyPeerChange()
      modifies this`notifications
      ensures notifications == old(notifications) + 1
    {
      notifications := notifications + 1;
    }

    /** The UPDATE .. RETURNING statement. */
    method AddCounters(id: string, rx: int, tx: int) returns (r: Option<Totals>)
      modifies this`users
      ensures id !in old(users) ==> users == old(users) && r == None
      ensures id in old(users) ==> users == old(users)[id := Apply(old(users)[id], Add(rx, tx))] && r == Some(users[id].totals)
    {
      if id !in users {
        return None;
      }
      var u := users[id];
      var delta := rx + tx;
      var t := u.totals;
      t := t.(used := t.used + delta, total := t.total + delta);
      t := t.(totalRx := t.totalRx + rx, totalTx := t.totalTx + tx);
      t := t.(monthlyRx := t.monthlyRx + rx, monthlyTx := t.monthlyTx + tx);
      users := users[id := u.(totals := t)];
      r := Some(t);
    }

    method AddUserTraffic(id: string, rx: int, tx: int) returns (r: Option<Totals>)
      modifies this
      ensures id !in old(users) ==> users == old(users) && r == None && notifications == old(notifications)
      ensures id in old(users) ==>
                && users == old(users)[id := Apply(old(users)[id], Add(rx, tx))] && r == Some(users[id].totals)
                && notifications == old(notifications) + if old(users)[id].OverQuota() != users[id].OverQuota() then 1 else 0
    {
      r := AddCounters(id, rx, tx);
      if r.None? || r.value.limit <= 0 {
        return;
      }
      var previous := r.value.used - rx - tx;
      if (previous >= r.value.limit) != (r.value.used >= r.value.limit) {
        NotifyPeerChange();
      }
    }

    method ResetUserMonthlyTraffic(id: string, expected: Marker, snapshot: Totals, resetAt: string) returns (ok: bool)
      modifies this
      ensures ok <==> id in old(users) && Takes(old(users)[id], ResetMonthly(expected, snapshot, resetAt))
      ensures users == if ok then old(users)[id := Apply(old(users)[id], ResetMonthly(expected, snapshot, resetAt))] else old(users)
      ensures notifications == old(notifications) + if ok then 1 else 0
    {
      if id !in users || users[id].monthlyReset != expected {
        return false;
      }
      var u := users[id];
      var t := u.totals;
      t := t.(monthlyRx := AtLeastZero(t.monthlyRx - snapshot.monthlyRx), monthlyTx := AtLeastZero(t.monthlyTx - snapshot.monthlyTx));
      if u.strategy == Monthly {
        t := t.(used := AtLeastZero(t.used - snapshot.used));
        u := u.(lastReset := Some(resetAt));
      }
      users := users[id := u.(totals := t, monthlyReset := Some(resetAt))];
      NotifyPeerChange();
      ok := true;
    }

    method ResetUserPeriodTraffic(id: string, expected: Marker, strategy: Strategy, snapshotUsed: int, resetAt: string)
      returns (ok: bool)
      modifies this
      ensures ok <==> id in old(users) && Takes(old(users)[id], ResetPeriod(expected, strategy, snapshotUsed, resetAt))
      ensures users == if ok then old(users)[id := Apply(old(users)[id], ResetPeriod(expected, strategy, snapshotUsed, resetAt))]
                       else old(users)
      ensures notifications == old(notifications) + if ok then 1 else 0
    {
      if id !in users || users[id].lastReset != expected || users[id].strategy != strategy {
        return false;
      }
      var u := users[id];
      var t := u.totals.(used := AtLeastZero(u.totals.used - snapshotUsed));
      users := users[id := u.(totals := t, lastReset := Some(resetAt))];
      NotifyPeerChange();
      ok := true;
    }
  }
}
