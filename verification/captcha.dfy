/** internal/captcha/captcha.go: the bounded store of slide challenges and one-shot tickets.
    Identifiers and clock readings are parameters. */
module Captcha {
  import opened Options
  import opened Sets
  import opened Instants

  const MAX_ENTRIES: nat := 10000
  const TOLERANCE := 4
  /** Seconds. */
  const TICKET_TTL: Time := 120

  /** challengeID is non-empty for a verified ticket. */
  datatype Entry = Entry(x: int, y: int, challengeID: string, expires: Time)

  type Entries = map<string, Entry>

  predicate Within(got: int, want: int) { want - TOLERANCE <= got <= want + TOLERANCE }

  // ---- sweeping and inserting ----------------------------------------------

  function Live(m: Entries, now: Time): Entries { map k | k in m && now < m[k].expires :: m[k] }

  /** `rest` is what remains after taking n entries, none of them expiring later than one
      that remains. */
  ghost predicate Oldest(m: Entries, n: nat, rest: Entries) {
    && rest.Keys <= m.Keys && |m| == |rest| + n
    && (forall k :: k in rest ==> rest[k] == m[k])
    && (forall k, j :: k in m && k !in rest && j in rest ==> m[k].expires <= m[j].expires)
  }

  ghost predicate Swept(m: Entries, force: bool, now: Time, m': Entries) {
    if force && |Live(m, now)| >= MAX_ENTRIES then Oldest(Live(m, now), MAX_ENTRIES / 2, m')
    else m' == Live(m, now)
  }

  ghost predicate Inserted(m: Entries, id: string, e: Entry, sweepAt: Time, m': Entries) {
    if |m| < MAX_ENTRIES then m' == m[id := e]
    else exists kept :: Swept(m, true, sweepAt, kept) && m' == kept[id := e]
  }

  // ---- the operations ------------------------------------------------------

  datatype Reply = Rejected | NoRandomness | Issued(ticket: string)

  /** `generated` is what the generator returned, or none when it failed; `now`, `stamp` and
      `sweepAt` are the clock readings in the order they are taken. */
  datatype Event =
    | NewSlide(generated: Option<string>, x: int, y: int, stamp: Time, sweepAt: Time)
    | VerifySlide(id: string, x: int, y: int, generated: Option<string>, now: Time, stamp: Time, sweepAt: Time, reply: Reply)
    | ConsumeTicket(challengeID: string, ticket: string, now: Time, accepted: bool)
    | Len(now: Time, n: nat)

  ghost predicate VerifyStep(m: Entries, id: string, x: int, y: int, generated: Option<string>, now: Time, stamp: Time,
                             sweepAt: Time, m': Entries, reply: Reply)
  {
    if id !in m || m[id].challengeID != "" then m' == m && reply == Rejected
    else if now >= m[id].expires || !Within(x, m[id].x) || !Within(y, m[id].y) then m' == m - {id} && reply == Rejected
    else if generated.None? then m' == m - {id} && reply == NoRandomness
    else
      && reply == Issued(generated.value)
      && Inserted(m - {id}, generated.value, Entry(0, 0, id, stamp + TICKET_TTL), sweepAt, m')
  }

  ghost predicate ConsumeStep(m: Entries, challengeID: string, ticket: string, now: Time, m': Entries, accepted: bool) {
    if ticket !in m || m[ticket].challengeID == "" then m' == m && !accepted
    else
      && m' == m - {ticket}
      && (accepted <==> challengeID != "" && m[ticket].challengeID == challengeID && now < m[ticket].expires)
  }

  ghost predicate Step(m: Entries, ttl: Time, ev: Event, m': Entries) {
    match ev
    case NewSlide(generated, x, y, stamp, sweepAt) =>
      if generated.None? then m' == m
      else Inserted(m, generated.value, Entry(x, y, "", stamp + ttl), sweepAt, m')
    case VerifySlide(id, x, y, generated, now, stamp, sweepAt, reply) =>
      VerifyStep(m, id, x, y, generated, now, stamp, sweepAt, m', reply)
    case ConsumeTicket(challengeID, ticket, now, accepted) => ConsumeStep(m, challengeID, ticket, now, m', accepted)
    case Len(now, n) => m' == Live(m, now) && n == |m'|
  }

  // ---- runs ----------------------------------------------------------------

  datatype Move = Move(pre: Entries, event: Event, post: Entries)

  ghost predicate Took(ttl: Time, m: Move) { Step(m.pre, ttl, m.event, m.post) }

  /** The identifier that an event puts into the store. */
  ghost predicate Creates(ev: Event, id: string) {
    match ev
    case NewSlide(generated, _, _, _, _) => generated == Some(id)
    case VerifySlide(_, _, _, _, _, _, _, reply) => reply == Issued(id)
    case _ => false
  }

  /** Any interleaving of operations, starting with an empty store; identifiers are not
      empty and never repeat. */
  ghost predicate IsRun(ttl: Time, run: seq<Move>) {
    && (forall i {:trigger Took(ttl, run[i])} :: 0 <= i < |run| ==> Took(ttl, run[i]))
    && (forall i {:trigger run[i].pre} :: 0 < i < |run| ==> run[i].pre == run[i - 1].post)
    && (run != [] ==> run[0].pre == map[])
    && (forall i :: 0 <= i < |run| ==> !Creates(run[i].event, ""))
    && (forall i, j, id :: 0 <= i < j < |run| && Creates(run[i].event, id) ==> !Creates(run[j].event, id))
  }

  lemma RunStep(ttl: Time, run: seq<Move>, i: nat)
    requires IsRun(ttl, run) && i < |run|
    ensures Took(ttl, run[i])
    ensures run[i].pre == if i == 0 then map[] else run[i - 1].post
  {
  }

  // ---- the size ------------------------------------------------------------

  lemma LiveIsNoLarger(m: Entries, now: Time)
    ensures |Live(m, now)| <= |m|
  {
    SubsetSize(Live(m, now).Keys, m.Keys);
    assert |Live(m, now).Keys| == |Live(m, now)| && |m.Keys| == |m|;
  }

  lemma SizeAfterInsert(m: Entries, id: string, e: Entry)
    ensures |m[id := e]| <= |m| + 1
  {
    assert m[id := e].Keys == m.Keys + {id};
    assert |m[id := e].Keys| == |m[id := e]| && |m.Keys| == |m|;
  }

  lemma InsertKeepsBound(m: Entries, id: string, e: Entry, sweepAt: Time, m': Entries)
    requires |m| <= MAX_ENTRIES && Inserted(m, id, e, sweepAt, m')
    ensures |m'| <= MAX_ENTRIES
  {
    if |m| < MAX_ENTRIES {
      SizeAfterInsert(m, id, e);
    } else {
      var kept :| Swept(m, true, sweepAt, kept) && m' == kept[id := e];
      LiveIsNoLarger(m, sweepAt);
      SizeAfterInsert(kept, id, e);
    }
  }

  lemma RemoveIsSmaller(m: Entries, id: string)
    ensures |m - {id}| <= |m|
  {
    SubsetSize((m - {id}).Keys, m.Keys);
    assert |(m - {id}).Keys| == |m - {id}| && |m.Keys| == |m|;
  }

  lemma StepKeepsBound(m: Entries, ttl: Time, ev: Event, m': Entries)
    requires |m| <= MAX_ENTRIES && Step(m, ttl, ev, m')
    ensures |m'| <= MAX_ENTRIES
  {
    match ev
    case NewSlide(generated, x, y, stamp, sweepAt) =>
      if generated.Some? { InsertKeepsBound(m, generated.value, Entry(x, y, "", stamp + ttl), sweepAt, m'); }
    case VerifySlide(id, x, y, generated, now, stamp, sweepAt, reply) =>
      RemoveIsSmaller(m, id);
      if reply.Issued? { InsertKeepsBound(m - {id}, generated.value, Entry(0, 0, id, stamp + TICKET_TTL), sweepAt, m'); }
    case ConsumeTicket(_, ticket, _, _) => RemoveIsSmaller(m, ticket);
    case Len(now, _) => LiveIsNoLarger(m, now);
  }

  lemma MoveKeepsBound(ttl: Time, m: Move)
    requires Took(ttl, m) && |m.pre| <= MAX_ENTRIES
    ensures |m.post| <= MAX_ENTRIES
  {
    StepKeepsBound(m.pre, ttl, m.event, m.post);
  }

  /** The store never holds more than its maximum. */
  lemma {:induction false} SizeIsBounded(ttl: Time, run: seq<Move>, i: nat)
    requires IsRun(ttl, run) && i < |run|
    ensures |run[i].pre| <= MAX_ENTRIES && |run[i].post| <= MAX_ENTRIES
  {
    if i > 0 { SizeIsBounded(ttl, run, i - 1); }
    RunStep(ttl, run, i);
    MoveKeepsBound(ttl, run[i]);
  }

  // ---- where entries come from ---------------------------------------------

  /** The entry an event creates. */
  function Created(ttl: Time, ev: Event): Entry
    requires ev.NewSlide? || ev.VerifySlide?
  {
    match ev
    case NewSlide(_, x, y, stamp, _) => Entry(x, y, "", stamp + ttl)
    case VerifySlide(id, _, _, _, _, stamp, _, _) => Entry(0, 0, id, stamp + TICKET_TTL)
  }

  /** Does the event use up the entry, whatever the outcome? */
  predicate Uses(m: Entries, ev: Event, k: string)
    requires k in m
  {
    || (ev.VerifySlide? && ev.id == k && m[k].challengeID == "")
    || (ev.ConsumeTicket? && ev.ticket == k && m[k].challengeID != "")
  }

  /** An event leaves an entry as it is, removes it, or creates it. */
  lemma StepEntries(m: Entries, ttl: Time, ev: Event, m': Entries, k: string)
    requires Step(m, ttl, ev, m')
    ensures k in m' && !Creates(ev, k) ==> k in m && m'[k] == m[k] && !Uses(m, ev, k)
    ensures Creates(ev, k) ==> k in m' && m'[k] == Created(ttl, ev)
  {
    match ev
    case NewSlide(generated, x, y, stamp, sweepAt) =>
      if generated.Some? { InsertEntries(m, generated.value, Entry(x, y, "", stamp + ttl), sweepAt, m', k); }
    case VerifySlide(_, _, _, _, _, _, _, _) => VerifyEntries(m, ttl, ev, m', k);
    case ConsumeTicket(_, _, _, _) =>
    case Len(_, _) =>
  }

  lemma VerifyEntries(m: Entries, ttl: Time, ev: Event, m': Entries, k: string)
    requires ev.VerifySlide?
    requires VerifyStep(m, ev.id, ev.x, ev.y, ev.generated, ev.now, ev.stamp, ev.sweepAt, m', ev.reply)
    ensures k in m' && !Creates(ev, k) ==> k in m && m'[k] == m[k] && !Uses(m, ev, k)
    ensures Creates(ev, k) ==> k in m' && m'[k] == Created(ttl, ev)
  {
    if ev.reply.Issued? {
      InsertEntries(m - {ev.id}, ev.generated.value, Entry(0, 0, ev.id, ev.stamp + TICKET_TTL), ev.sweepAt, m', k);
    }
  }

  lemma InsertEntries(m: Entries, id: string, e: Entry, sweepAt: Time, m': Entries, k: string)
    requires Inserted(m, id, e, sweepAt, m')
    ensures id in m' && m'[id] == e
    ensures k in m' && k != id ==> k in m && m'[k] == m[k]
  {
    if |m| >= MAX_ENTRIES {
      var kept :| Swept(m, true, sweepAt, kept) && m' == kept[id := e];
    }
  }

  /** Every entry was created by an earlier event. */
  lemma {:induction false} EntryOrigin(ttl: Time, run: seq<Move>, i: nat, k: string) returns (n: nat)
    requires IsRun(ttl, run) && i < |run| && k in run[i].pre
    ensures n < i && Creates(run[n].event, k) && run[i].pre[k] == Created(ttl, run[n].event)
  {
    assert i > 0;
    var m := run[i - 1];
    assert Took(ttl, m);
    StepEntries(m.pre, ttl, m.event, m.post, k);
    if Creates(m.event, k) {
      n := i - 1;
    } else {
      n := EntryOrigin(ttl, run, i - 1, k);
    }
  }

  /** An entry that was used does not come back. */
  lemma {:induction false} UsedIsGone(ttl: Time, run: seq<Move>, i: nat, j: nat, k: string)
    requires IsRun(ttl, run) && i < j < |run|
    requires k in run[i].pre && Uses(run[i].pre, run[i].event, k)
    ensures k !in run[j].pre
  {
    var n := EntryOrigin(ttl, run, i, k);
    var m := run[j - 1];
    assert Took(ttl, m) && !Creates(m.event, k);
    StepEntries(m.pre, ttl, m.event, m.post, k);
    if i < j - 1 { UsedIsGone(ttl, run, i, j - 1, k); }
  }

  // ---- one-shot ------------------------------------------------------------

  lemma IssuedUses(ttl: Time, m: Move)
    requires Took(ttl, m) && m.event.VerifySlide? && m.event.reply.Issued?
    ensures m.event.id in m.pre && Uses(m.pre, m.event, m.event.id)
  {
  }

  /** A challenge yields at most one ticket. */
  lemma OneTicketPerChallenge(ttl: Time, run: seq<Move>, i: nat, j: nat)
    requires IsRun(ttl, run) && i < |run| && j < |run|
    requires run[i].event.VerifySlide? && run[i].event.reply.Issued?
    requires run[j].event.VerifySlide? && run[j].event.reply.Issued?
    requires run[i].event.id == run[j].event.id
    ensures i == j
  {
    assert Took(ttl, run[i]) && Took(ttl, run[j]);
    IssuedUses(ttl, run[i]);
    IssuedUses(ttl, run[j]);
    if i < j { UsedIsGone(ttl, run, i, j, run[i].event.id); }
    if j < i { UsedIsGone(ttl, run, j, i, run[i].event.id); }
  }

  /** Not even a failed attempt can be retried. */
  lemma OneAttemptPerChallenge(ttl: Time, run: seq<Move>, i: nat, j: nat)
    requires IsRun(ttl, run) && i < j < |run|
    requires run[i].event.VerifySlide? && run[i].event.id in run[i].pre && run[i].pre[run[i].event.id].challengeID == ""
    requires run[j].event.VerifySlide? && run[j].event.id == run[i].event.id
    ensures run[j].event.reply == Rejected && run[j].post == run[j].pre
  {
    UsedIsGone(ttl, run, i, j, run[i].event.id);
    assert Took(ttl, run[j]);
  }

  lemma AcceptedUses(ttl: Time, m: Move)
    requires Took(ttl, m) && m.event.ConsumeTicket? && m.event.accepted
    ensures m.event.ticket in m.pre && Uses(m.pre, m.event, m.event.ticket)
    ensures m.pre[m.event.ticket].challengeID == m.event.challengeID != ""
    ensures m.event.now < m.pre[m.event.ticket].expires
  {
  }

  /** A ticket is accepted at most once. */
  lemma TicketIsAcceptedOnce(ttl: Time, run: seq<Move>, i: nat, j: nat)
    requires IsRun(ttl, run) && i < |run| && j < |run|
    requires run[i].event.ConsumeTicket? && run[i].event.accepted
    requires run[j].event.ConsumeTicket? && run[j].event.accepted
    requires run[i].event.ticket == run[j].event.ticket
    ensures i == j
  {
    assert Took(ttl, run[i]) && Took(ttl, run[j]);
    AcceptedUses(ttl, run[i]);
    AcceptedUses(ttl, run[j]);
    if i < j { UsedIsGone(ttl, run, i, j, run[i].event.ticket); }
    if j < i { UsedIsGone(ttl, run, j, i, run[i].event.ticket); }
  }

  /** Both coordinates are at most 4 off. */
  predicate Near(attempt: Event, slide: Event)
    requires attempt.VerifySlide? && slide.NewSlide?
  {
    -4 <= attempt.x - slide.x <= 4 && -4 <= attempt.y - slide.y <= 4
  }

  /** The slide that a verification solved. */
  lemma SolvedSlide(ttl: Time, run: seq<Move>, v: nat) returns (n: nat)
    requires IsRun(ttl, run) && v < |run| && run[v].event.VerifySlide? && run[v].event.reply.Issued?
    ensures n < v && run[n].event.NewSlide? && run[n].event.generated == Some(run[v].event.id)
    ensures Near(run[v].event, run[n].event)
    ensures run[v].event.now < run[n].event.stamp + ttl
  {
    assert Took(ttl, run[v]);
    IssuedUses(ttl, run[v]);
    n := EntryOrigin(ttl, run, v, run[v].event.id);
    if run[n].event.VerifySlide? {
      assert Took(ttl, run[n]);
      IssuedUses(ttl, run[n]);
      var o := EntryOrigin(ttl, run, n, run[n].event.id);
    }
  }

  /** A ticket is accepted only for the challenge whose verification issued it, within its
      time to live, and that verification hit the target of that challenge within the
      tolerance before the challenge expired. */
  lemma AcceptedTicketWasEarned(ttl: Time, run: seq<Move>, j: nat) returns (n: nat, v: nat)
    requires IsRun(ttl, run) && j < |run| && run[j].event.ConsumeTicket? && run[j].event.accepted
    ensures n < v < j && run[n].event.NewSlide? && run[v].event.VerifySlide?
    ensures run[n].event.generated == Some(run[j].event.challengeID) && run[v].event.id == run[j].event.challengeID
    ensures run[v].event.reply == Issued(run[j].event.ticket)
    ensures Near(run[v].event, run[n].event)
    ensures run[v].event.now < run[n].event.stamp + ttl && run[j].event.now < run[v].event.stamp + TICKET_TTL
  {
    assert Took(ttl, run[j]);
    AcceptedUses(ttl, run[j]);
    v := EntryOrigin(ttl, run, j, run[j].event.ticket);
    n := SolvedSlide(ttl, run, v);
  }

  // ---- an honest login is not dropped --------------------------------------

  /** The last clock reading of an event. */
  function LastReading(ev: Event): Time {
    match ev
    case NewSlide(_, _, _, _, sweepAt) => sweepAt
    case VerifySlide(_, _, _, _, _, _, sweepAt, _) => sweepAt
    case ConsumeTicket(_, _, now, _) => now
    case Len(now, _) => now
  }

  lemma StepKeepsUnused(m: Entries, ttl: Time, ev: Event, m': Entries, k: string)
    requires Step(m, ttl, ev, m') && k in m && !Uses(m, ev, k) && !Creates(ev, k)
    requires |m| < MAX_ENTRIES && LastReading(ev) < m[k].expires
    ensures k in m' && m'[k] == m[k]
  {
    match ev
    case VerifySlide(id, _, _, _, _, _, _, _) => RemoveIsSmaller(m, id);
    case _ =>
  }

  /** The event does not use the entry, is over before the entry expires, and finds room. */
  ghost predicate Spares(m: Move, k: string, expires: Time) {
    |m.pre| < MAX_ENTRIES && LastReading(m.event) < expires && (k in m.pre ==> !Uses(m.pre, m.event, k))
  }

  /** While the store is not full, an entry stays until it expires or is used; a challenge
      is not used up by presenting it as a ticket, nor a ticket as a challenge. */
  lemma {:induction false} UnusedEntryStays(ttl: Time, run: seq<Move>, i: nat, j: nat, k: string, e: Entry)
    requires IsRun(ttl, run) && i <= j < |run| && k in run[i].pre && run[i].pre[k] == e
    requires forall l :: i <= l < j ==> Spares(run[l], k, e.expires)
    ensures k in run[j].pre && run[j].pre[k] == e
  {
    if i < j {
      UnusedEntryStays(ttl, run, i, j - 1, k, e);
      NotCreatedAgain(ttl, run, i, j - 1, k);
      RunStep(ttl, run, j - 1);
      RunStep(ttl, run, j);
      MoveKeepsUnused(ttl, run[j - 1], k, e);
    }
  }

  lemma NotCreatedAgain(ttl: Time, run: seq<Move>, i: nat, j: nat, k: string)
    requires IsRun(ttl, run) && i <= j < |run| && k in run[i].pre
    ensures !Creates(run[j].event, k)
  {
    var n := EntryOrigin(ttl, run, i, k);
  }

  lemma MoveKeepsUnused(ttl: Time, m: Move, k: string, e: Entry)
    requires Took(ttl, m) && k in m.pre && m.pre[k] == e && Spares(m, k, e.expires) && !Creates(m.event, k)
    ensures k in m.post && m.post[k] == e
  {
    StepKeepsUnused(m.pre, ttl, m.event, m.post, k);
  }

  /** An honest login succeeds: a slide that is hit in time yields the ticket, and that
      ticket is accepted in time for its challenge, as long as neither is used in between
      and the store is not full. */
  lemma HonestLogin(ttl: Time, run: seq<Move>, n: nat, v: nat, j: nat)
    requires IsRun(ttl, run) && n < v < j < |run|
    requires run[n].event.NewSlide? && run[v].event.VerifySlide? && run[j].event.ConsumeTicket?
    requires run[n].event.generated == Some(run[v].event.id) && run[v].event.generated == Some(run[j].event.ticket)
    requires run[j].event.challengeID == run[v].event.id
    requires Near(run[v].event, run[n].event)
    requires run[v].event.now < run[n].event.stamp + ttl && run[j].event.now < run[v].event.stamp + 120
    requires forall l :: n < l < v ==> Spares(run[l], run[v].event.id, run[n].event.stamp + ttl)
    requires forall l :: v < l < j ==> Spares(run[l], run[j].event.ticket, run[v].event.stamp + 120)
    ensures run[v].event.reply == Issued(run[j].event.ticket) && run[j].event.accepted
  {
    ChallengeIsKept(ttl, run, n, v);
    RunStep(ttl, run, v);
    assert !Creates(run[n].event, "");
    assert run[v].event.reply == Issued(run[j].event.ticket);
    TicketIsKept(ttl, run, v, j);
    RunStep(ttl, run, j);
  }

  lemma CreatedIsThere(ttl: Time, run: seq<Move>, n: nat, id: string)
    requires IsRun(ttl, run) && n + 1 < |run| && Creates(run[n].event, id)
    ensures id in run[n + 1].pre && run[n + 1].pre[id] == Created(ttl, run[n].event)
  {
    RunStep(ttl, run, n);
    RunStep(ttl, run, n + 1);
    StepEntries(run[n].pre, ttl, run[n].event, run[n].post, id);
  }

  lemma ChallengeIsKept(ttl: Time, run: seq<Move>, n: nat, v: nat)
    requires IsRun(ttl, run) && n < v < |run| && run[n].event.NewSlide? && run[v].event.VerifySlide?
    requires run[n].event.generated == Some(run[v].event.id)
    requires forall l :: n < l < v ==> Spares(run[l], run[v].event.id, run[n].event.stamp + ttl)
    ensures run[v].event.id in run[v].pre && run[v].pre[run[v].event.id] == Created(ttl, run[n].event)
  {
    CreatedIsThere(ttl, run, n, run[v].event.id);
    UnusedEntryStays(ttl, run, n + 1, v, run[v].event.id, Created(ttl, run[n].event));
  }

  lemma TicketIsKept(ttl: Time, run: seq<Move>, v: nat, j: nat)
    requires IsRun(ttl, run) && v < j < |run| && run[v].event.VerifySlide? && run[j].event.ConsumeTicket?
    requires run[v].event.reply == Issued(run[j].event.ticket)
    requires forall l :: v < l < j ==> Spares(run[l], run[j].event.ticket, run[v].event.stamp + 120)
    ensures run[j].event.ticket in run[j].pre && run[j].pre[run[j].event.ticket] == Created(ttl, run[v].event)
  {
    CreatedIsThere(ttl, run, v, run[j].event.ticket);
    UnusedEntryStays(ttl, run, v + 1, j, run[j].event.ticket, Created(ttl, run[v].event));
  }

  /** Len drops what has expired and counts the rest, which is as it was. */
  lemma LenCountsTheLiving(m: Entries, ttl: Time, now: Time, n: nat, m': Entries)
    requires Step(m, ttl, Event.Len(now, n), m')
    ensures n == |m'| && forall k :: k in m' <==> k in m && m[k].expires > now
    ensures forall k :: k in m' ==> m'[k] == m[k]
  {
  }

  /** An insertion drops an entry that has not expired only from a full store, together
      with the half of it that expires first. */
  lemma InsertDropsAtMostHalf(m: Entries, id: string, e: Entry, sweepAt: Time, m': Entries, k: string)
    requires Inserted(m, id, e, sweepAt, m') && id !in m && |m| <= 10000
    requires k in m && k !in m' && sweepAt < m[k].expires
    ensures |m| == 10000 && |m'| == 5001 && forall j :: j in m' && j != id ==> j in m && m[k].expires <= m[j].expires
  {
    var kept :| Swept(m, true, sweepAt, kept) && m' == kept[id := e];
    SweepDropsHalf(m, sweepAt, kept);
    assert k in Live(m, sweepAt);
    assert m'.Keys == kept.Keys + {id} && |m'.Keys| == |m'| && |kept.Keys| == |kept|;
  }

  lemma SweepDropsHalf(m: Entries, sweepAt: Time, kept: Entries)
    requires Swept(m, true, sweepAt, kept) && |m| == 10000
    ensures kept.Keys <= m.Keys && forall k :: k in kept ==> kept[k] == m[k]
    ensures kept == Live(m, sweepAt)
            || (|kept| == 5000 && forall k, j :: k in m && sweepAt < m[k].expires && k !in kept && j in kept ==> m[k].expires <= kept[j].expires)
  {
    LiveIsNoLarger(m, sweepAt);
    if |Live(m, sweepAt)| >= MAX_ENTRIES {
      forall k, j | k in m && sweepAt < m[k].expires && k !in kept && j in kept ensures m[k].expires <= kept[j].expires {
        assert k in Live(m, sweepAt);
      }
    }
  }

  // ---- the store as an object ----------------------------------------------

  class Store {
    var entries: Entries
    const ttl: Time

    constructor (ttl: Time)
      ensures entries == map[] && this.ttl == ttl
    {
      this.ttl, entries := ttl, map[];
    }

    method NewSlide(generated: Option<string>, x: int, y: int, stamp: Time, sweepAt: Time)
      modifies this
      ensures Step(old(entries), ttl, Event.NewSlide(generated, x, y, stamp, sweepAt), entries)
    {
      if generated.Some? {
        InsertLocked(generated.value, Entry(x, y, "", stamp + ttl), sweepAt);
      }
    }

    method VerifySlide(id: string, x: int, y: int, generated: Option<string>, now: Time, stamp: Time, sweepAt: Time)
      returns (reply: Reply)
      modifies this
      ensures Step(old(entries), ttl, Event.VerifySlide(id, x, y, generated, now, stamp, sweepAt, reply), entries)
    {
      if id !in entries || entries[id].challengeID != "" {
        return Rejected;
      }
      var e := entries[id];
      RemoveIsSmaller(entries, id);
      entries := entries - {id};
      if now >= e.expires || !Within(x, e.x) || !Within(y, e.y) {
        return Rejected;
      }
      if generated.None? {
        return NoRandomness;
      }
      InsertLocked(generated.value, Entry(0, 0, id, stamp + TICKET_TTL), sweepAt);
      reply := Issued(generated.value);
    }

    method ConsumeTicket(challengeID: string, ticket: string, now: Time) returns (accepted: bool)
      modifies this
      ensures Step(old(entries), ttl, Event.ConsumeTicket(challengeID, ticket, now, accepted), entries)
    {
      if ticket !in entries || entries[ticket].challengeID == "" {
        return false;
      }
      var e := entries[ticket];
      entries := entries - {ticket};
      accepted := challengeID != "" && e.challengeID == challengeID && now < e.expires;
    }

    method Len(now: Time) returns (n: nat)
      modifies this
      ensures Step(old(entries), ttl, Event.Len(now, n), entries)
    {
      SweepLocked(false, now);
      n := |entries|;
    }

    method InsertLocked(id: string, e: Entry, sweepAt: Time)
      modifies this
      ensures Inserted(old(entries), id, e, sweepAt, entries)
    {
      if |entries| >= MAX_ENTRIES {
        SweepLocked(true, sweepAt);
      }
      entries := entries[id := e];
    }

    method SweepLocked(force: bool, now: Time)
      modifies this
      ensures Swept(old(entries), force, now, entries)
    {
      DeleteExpired(now);
      if force && |entries| >= MAX_ENTRIES {
        DeleteOldest(MAX_ENTRIES / 2);
      }
    }

    method DeleteExpired(now: Time)
      modifies this
      ensures entries == Live(old(entries), now)
    {
      ghost var before := entries;
      var todo := entries.Keys;
      while todo != {}
        invariant entries == LiveBut(before, now, todo) && todo <= before.Keys
        decreases |todo|
      {
        NonEmpty(todo);
        var id :| id in todo;
        if now >= entries[id].expires {
          entries := entries - {id};
        }
        todo := todo - {id};
        assert entries == LiveBut(before, now, todo);
      }
    }

    /** The first n entries in the order of expiry; ties in any order. */
    method DeleteOldest(n: nat)
      requires n <= |entries|
      modifies this
      ensures Oldest(old(entries), n, entries)
    {
      ghost var before := entries;
      for i := 0 to n
        invariant Oldest(before, i, entries)
      {
        ghost var some := Earliest(entries);
        assert some in entries && forall j :: j in entries ==> entries[some].expires <= entries[j].expires;
        var id :| id in entries && forall j :: j in entries ==> entries[id].expires <= entries[j].expires;
        OldestOneMore(before, i, entries, id);
        entries := entries - {id};
      }
    }
  }

  ghost function LiveBut(m: Entries, now: Time, todo: set<string>): Entries {
    map k | k in m && (k in todo || now < m[k].expires) :: m[k]
  }

  ghost function Earliest(m: Entries): (id: string)
    requires |m| > 0
    ensures id in m && forall j :: j in m ==> m[id].expires <= m[j].expires
    decreases |m|
  {
    assert m.Keys != {} by { assert |m.Keys| == |m|; }
    var k := Pick(m.Keys);
    assert |(m - {k}).Keys| == |m - {k}| && (m - {k}).Keys == m.Keys - {k} && |m.Keys| == |m|;
    if |m - {k}| == 0 then
      assert (m - {k}).Keys == {};
      assert forall j :: j in m ==> j == k || j in (m - {k}).Keys;
      k
    else
      var other := Earliest(m - {k});
      assert forall j :: j in m ==> j == k || j in m - {k};
      if m[k].expires <= m[other].expires then k else other
  }

  lemma OldestOneMore(m: Entries, n: nat, rest: Entries, id: string)
    requires Oldest(m, n, rest) && id in rest
    requires forall j :: j in rest ==> rest[id].expires <= rest[j].expires
    ensures Oldest(m, n + 1, rest - {id})
  {
    assert (rest - {id}).Keys == rest.Keys - {id};
    assert |rest - {id}| == |(rest - {id}).Keys| && |rest| == |rest.Keys|;
  }
}
