// What holds of the relay's queue over whole runs of operations: quotas in
// every reachable state, where every stored message ends up, and leases.
module RelayRuns {
  import opened Options
  import opened RelayTable
  import opened RelayStore
  import opened RelayQueue

  datatype Op =
    | Store(q: StoreRequest, throttled: bool, out: StoreResult)
    | Take(m: string, limit: nat, lease: Option<(string, nat)>, now: nat)
    | Ack(m: string, leaseId: string)
    | Restart
    | Stats(now: nat)

  // A run from an empty database, latest operation outermost.
  datatype Log = Fresh | Did(earlier: Log, op: Op, after: Table)

  function Now(log: Log): Table {
    match log
    case Fresh => Table([], 0, 1)
    case Did(_, _, after) => after
  }

  ghost predicate Step(cfg: Config, t: Table, op: Op, t': Table) {
    match op
    case Store(q, throttled, out) => StoreStep(cfg, t, q, throttled, out, t')
    case Take(m, limit, lease, now) => t' == TakeResult(cfg, t, m, limit, lease, now).0
    case Ack(m, leaseId) => t' == AckResult(t, m, leaseId).0
    case Restart => t' == t.(rows := Unlease(t.rows))
    case Stats(now) => t' == Table(Live(cfg, t.rows, now), Bytes(Live(cfg, t.rows, now), Everything()), t.nextId)
  }

  // The operation's reading of the clock; acknowledging and reopening read none.
  function Clock(op: Op, before: nat): nat {
    match op
    case Store(q, _, _) => q.now
    case Take(_, _, _, now) => now
    case Stats(now) => now
    case Ack(_, _) => before
    case Restart => before
  }

  function TimeOf(log: Log): nat {
    match log
    case Fresh => 0
    case Did(earlier, op, _) => Clock(op, TimeOf(earlier))
  }

  // Operations in the order they take the database lock. Each read the clock
  // before that, so their readings may come in any order.
  ghost predicate Run(cfg: Config, log: Log) {
    log.Did? ==> Run(cfg, log.earlier) && Step(cfg, Now(log.earlier), log.op, log.after)
  }

  // From one log to a later one, no reading went back.
  ghost predicate ClockForward(log: Log, from: Log) {
    log == from || (log.Did? && ClockForward(log.earlier, from) && TimeOf(log.earlier) <= TimeOf(log))
  }

  // ---- Quotas in every reachable state ----------------------------------------

  lemma StepKeepsGood(cfg: Config, t: Table, op: Op, t': Table)
    requires Good(cfg, t) && Step(cfg, t, op, t')
    ensures Good(cfg, t')
  {
    hide Good, StoreStep, TakeResult, AckResult, Unlease, Bytes;
    match op
    case Store(q, throttled, out) => StoreKeepsGood(cfg, t, q, throttled, out, t');
    case Take(m, limit, lease, now) => TakeKeepsGood(cfg, t, m, limit, lease, now);
    case Ack(m, leaseId) => AckKeepsGood(cfg, t, m, leaseId);
    case Restart => RestartKeepsGood(cfg, t);
    case Stats(now) => DeleteKeepsGood(cfg, t, Expired(Cutoff(cfg, now)));
  }

  lemma {:induction false} AlwaysGood(cfg: Config, log: Log)
    requires Run(cfg, log)
    ensures Good(cfg, Now(log))
  {
    if log.Did? {
      hide Good, Step;
      AlwaysGood(cfg, log.earlier);
      StepKeepsGood(cfg, Now(log.earlier), log.op, log.after);
    }
  }

  // ---- Leases ---------------------------------------------------------------

  function HandedBy(cfg: Config, log: Log): seq<Row>
    requires log.Did? && log.op.Take?
  {
    TakeResult(cfg, Now(log.earlier), log.op.m, log.op.limit, log.op.lease, log.op.now).1
  }

  // The lease under which a row was last handed out.
  function LastLease(cfg: Config, log: Log, id: nat): Option<string> {
    if log.Fresh? then None
    else if log.op.Take? && log.op.lease.Some? && id in Consumed(HandedBy(cfg, log)) then Some(log.op.lease.value.0)
    else LastLease(cfg, log.earlier, id)
  }

  // A row of the new table is the old row, perhaps with another lease: the
  // one it had, none, or the one this operation gives it.
  ghost predicate Descends(t: Table, op: Op, handed: set<nat>, y: Row) {
    exists x :: x in t.rows && y == x.(lease := y.lease) &&
      (y.lease == x.lease || y.lease.None? ||
       (op.Take? && op.lease.Some? && x.id in handed && y.lease == TakeLease(op.lease, op.now)))
  }

  function HandedIds(cfg: Config, t: Table, op: Op): set<nat> {
    if op.Take? then Consumed(TakeResult(cfg, t, op.m, op.limit, op.lease, op.now).1) else {}
  }

  lemma TakeDescends(cfg: Config, t: Table, op: Op, y: Row)
    requires Good(cfg, t) && op.Take?
    requires y in TakeResult(cfg, t, op.m, op.limit, op.lease, op.now).0.rows
    ensures Descends(t, op, HandedIds(cfg, t, op), y)
  {
    hide Without, Select, Bytes, Count, Quotas, Sorted;
    var live := Live(cfg, t.rows, op.now);
    var ready := ReadyRows(cfg, t.rows, op.now);
    var handed := Handed(ready, op.m, op.limit);
    InWithout(t.rows, Expired(Cutoff(cfg, op.now)));
    match TakeLease(op.lease, op.now)
    case None =>
      InWithout(ready, AnyOf(Consumed(handed)));
      var i :| 0 <= i < |ready| && ready[i] == y;
      assert live[i] in live;
    case Some(l) =>
      var rows := LeaseTo(ready, Consumed(handed), l);
      var i :| 0 <= i < |rows| && rows[i] == y;
      assert live[i] in live;
  }

  // What a store may take the unleased row x out for: the announcement it
  // stores, its mailbox being full, or the relay being full.
  ghost predicate RoomNeeded(cfg: Config, t: Table, q: StoreRequest, x: Row) {
    var live := Live(cfg, t.rows, q.now);
    || (q.envelope.IsPairing() && x.envelope.IsPairing() && x.mailbox == q.mailbox)
    || (x.mailbox == q.mailbox && !MailboxFits(cfg, live, q.mailbox, q.envelope.size))
    || !TotalFits(live, q.envelope.size, cfg.maxTotal)
  }

  lemma StoredRows(cfg: Config, t: Table, q: StoreRequest, throttled: bool, out: StoreResult, t': Table)
    requires Good(cfg, t) && StoreStep(cfg, t, q, throttled, out, t')
    ensures out.Stored? ==> out.id == t.nextId && NewRow(t, q) in t'.rows
    ensures forall y :: y in t'.rows ==> y in t.rows || (out.Stored? && y == NewRow(t, q))
    ensures forall x :: x in t.rows && x !in t'.rows ==>
              !out.Refused? && (x.at < Cutoff(cfg, q.now) || (out.Stored? && x.lease.None? && RoomNeeded(cfg, t, q, x)))
  {
    hide Select, Without, Bytes, Count, Sorted, Quotas, Cleared, Victims, MailboxFits, SourceOver, TotalFits, NotSooner,
      IsDuplicate, OldestFirst, LastWasNeeded, Largest, LargestPaysFirst, RoomNeeded, Live;
    var live := Live(cfg, t.rows, q.now);
    InWithout(t.rows, Expired(Cutoff(cfg, q.now)));
    DeleteIsLive(cfg, t, q.now);
    if out.Stored? {
      var k: nat, kept :| k <= |Victims(Cleared(live, q), q.mailbox)| && StoreTail(cfg, t, q, k, kept, out, t');
      StoreStages(cfg, t, q, k);
      EvictedUnleased(cfg, t, q, k);
      forall x | x in live && x !in kept ensures RoomNeeded(cfg, t, q, x) { WhyEvicted(cfg, t, q, k, kept, x); }
    }
  }

  // A message that its mailbox and the relay have room for displaces nothing.
  lemma RoomyStoreKeepsAll(cfg: Config, t: Table, q: StoreRequest, throttled: bool, out: StoreResult, t': Table)
    requires Good(cfg, t) && StoreStep(cfg, t, q, throttled, out, t') && !q.envelope.IsPairing()
    requires MailboxFits(cfg, Live(cfg, t.rows, q.now), q.mailbox, q.envelope.size)
    requires TotalFits(Live(cfg, t.rows, q.now), q.envelope.size, cfg.maxTotal)
    ensures forall x :: x in t.rows && x.at >= Cutoff(cfg, q.now) ==> x in t'.rows
  {
    hide Good, StoreStep, MailboxFits, TotalFits, Live;
    StoredRows(cfg, t, q, throttled, out, t');
  }

  // Each loop takes rows only while what it makes room in is full.
  lemma WhyEvicted(cfg: Config, t: Table, q: StoreRequest, k: nat, kept: seq<Row>, x: Row)
    requires Good(cfg, t) && k <= |Victims(Cleared(Live(cfg, t.rows, q.now), q), q.mailbox)|
    requires var cleared := Cleared(Live(cfg, t.rows, q.now), q);
             && NotSooner(cfg, cleared, q.mailbox, q.envelope.size, k)
             && RoomMade(AfterVictims(cleared, q.mailbox, k), kept, q.envelope.size, cfg.maxTotal)
    requires x in Live(cfg, t.rows, q.now) && x !in kept
    ensures RoomNeeded(cfg, t, q, x)
  {
    hide Select, Without, Bytes, Count, Sorted, Quotas, Cleared, Victims, Live, AfterVictims, NotSooner, RoomMade, Good,
      MailboxFits, TotalFits;
    var live := Live(cfg, t.rows, q.now);
    var cleared := Cleared(live, q);
    var roomy := AfterVictims(cleared, q.mailbox, k);
    StoreStages(cfg, t, q, k);
    if x !in cleared {
      ClearedOwn(cfg, t, q, x);
    } else if x !in roomy {
      VictimNeeded(cfg, cleared, q.mailbox, q.envelope.size, k, x);
      MailboxFuller(cfg, cleared, live, q.mailbox, q.envelope.size);
    } else {
      PaymentNeeded(roomy, kept, q.envelope.size, cfg.maxTotal);
      TotalFuller(roomy, live, q.envelope.size, cfg.maxTotal);
    }
  }

  lemma ClearedOwn(cfg: Config, t: Table, q: StoreRequest, x: Row)
    requires Good(cfg, t) && x in Live(cfg, t.rows, q.now) && x !in Cleared(Live(cfg, t.rows, q.now), q)
    ensures q.envelope.IsPairing() && x.envelope.IsPairing() && x.mailbox == q.mailbox
  {
    hide Select, Without, Bytes, Count, Quotas, Sorted;
    var live := Live(cfg, t.rows, q.now);
    WithoutIsSub(t.rows, Expired(Cutoff(cfg, q.now)));
    ClearedShrinks(live, q);
    ClearedMailbox(live, q, x);
  }

  lemma ClearedMailbox(live: seq<Row>, q: StoreRequest, x: Row)
    requires Sorted(live) && x in live && x !in Cleared(live, q)
    ensures q.envelope.IsPairing() && x.mailbox == q.mailbox
  {
    hide Select, Without, Sorted;
    var others := if q.envelope.sender.Some? then Without(live, PairingFrom(q.mailbox, q.envelope.sender.value)) else live;
    if q.envelope.sender.Some? {
      InWithout(live, PairingFrom(q.mailbox, q.envelope.sender.value));
      WithoutSorted(live, PairingFrom(q.mailbox, q.envelope.sender.value));
    }
    var excess := PairingExcess(others, q.mailbox);
    InWithout(others, AnyOf(Ids(excess)));
    InSelect(others, Pairing(q.mailbox));
    if x in others && x.id in Ids(excess) {
      var v :| v in excess && v.id == x.id;
      assert v in Select(others, Pairing(q.mailbox));
      SameId(others, v, x);
    }
  }

  lemma VictimNeeded(cfg: Config, rows: seq<Row>, m: string, size: nat, k: nat, x: Row)
    requires Sorted(rows) && k <= |Victims(rows, m)| && NotSooner(cfg, rows, m, size, k)
    requires x in rows && x !in AfterVictims(rows, m, k)
    ensures x.mailbox == m && !MailboxFits(cfg, rows, m, size)
  {
    hide Select, Without, Sorted, MailboxFits;
    var vs := Victims(rows, m);
    InWithout(rows, AnyOf(Ids(vs[..k])));
    InSelect(rows, UnleasedNamed(m));
    InSelect(rows, UnleasedOther(m));
    var v :| v in vs[..k] && v.id == x.id;
    assert v in vs;
    SameId(rows, v, x);
    DropNone(rows, vs);
    assert AfterVictims(rows, m, 0) == rows;
  }

  lemma MailboxFuller(cfg: Config, kept: seq<Row>, rows: seq<Row>, m: string, size: nat)
    requires SubTable(kept, rows) && !MailboxFits(cfg, kept, m, size)
    ensures !MailboxFits(cfg, rows, m, size)
  {
    hide Count, Bytes;
    SubTableMeasures(kept, rows, InMailbox(m));
  }

  lemma TotalFuller(kept: seq<Row>, rows: seq<Row>, size: nat, max: nat)
    requires SubTable(kept, rows) && !TotalFits(kept, size, max)
    ensures !TotalFits(rows, size, max)
  {
    hide Bytes, Count;
    SubTableMeasures(kept, rows, Everything());
  }

  lemma PaymentNeeded(rows: seq<Row>, kept: seq<Row>, size: nat, max: nat)
    requires RoomMade(rows, kept, size, max) && kept != rows
    ensures !TotalFits(rows, size, max)
  {
    hide Bytes, Count, Without, OldestFirst, Largest, LargestPaysFirst;
    var v :| v in rows && v !in kept && Bytes(kept, Everything()) + v.envelope.size + size > max;
    WithoutIsSub(rows, AnyOf({v.id}));
    InAfterRemove(rows, v);
    SubTableMeasures(kept, Without(rows, AnyOf({v.id})), Everything());
    RemoveOne(rows, v, Everything());
  }

  // Neither the pairing loop nor the mailbox loop takes a leased row.
  lemma EvictedUnleased(cfg: Config, t: Table, q: StoreRequest, k: nat)
    requires Good(cfg, t) && k <= |Victims(Cleared(Live(cfg, t.rows, q.now), q), q.mailbox)|
    ensures var live := Live(cfg, t.rows, q.now);
            forall x :: x in live && x !in AfterVictims(Cleared(live, q), q.mailbox, k) ==> x.lease.None?
  {
    hide Select, Without, Bytes, Count, Sorted, Quotas, Cleared;
    var live := Live(cfg, t.rows, q.now);
    var cleared := Cleared(live, q);
    StoreStages(cfg, t, q, k);
    ClearedShrinks(live, q);
    var vs := Victims(cleared, q.mailbox);
    InWithout(cleared, AnyOf(Ids(vs[..k])));
    InSelect(cleared, UnleasedNamed(q.mailbox));
    InSelect(cleared, UnleasedOther(q.mailbox));
    forall x | x in cleared && x.id in Ids(vs[..k]) ensures x.lease.None? {
      var v :| v in vs[..k] && v.id == x.id;
      assert v in vs;
      SameId(cleared, x, v);
    }
  }

  lemma StepDescends(cfg: Config, t: Table, op: Op, t': Table)
    requires Good(cfg, t) && Step(cfg, t, op, t')
    ensures forall y :: y in t'.rows ==>
              Descends(t, op, HandedIds(cfg, t, op), y) || (op.Store? && op.out.Stored? && y == NewRow(t, op.q))
    ensures t.nextId <= t'.nextId
  {
    hide Select, Without, Bytes, Count, Sorted, Quotas, Good, StoreTail, IsDuplicate, Taken, Handed;
    forall y | y in t'.rows
      ensures Descends(t, op, HandedIds(cfg, t, op), y) || (op.Store? && op.out.Stored? && y == NewRow(t, op.q))
    {
      match op
      case Store(q, throttled, out) =>
        StoredRows(cfg, t, q, throttled, out, t');
        assert y in t.rows ==> y == y.(lease := y.lease);
      case Take(m, limit, lease, now) => TakeDescends(cfg, t, op, y);
      case Ack(m, leaseId) => InWithout(t.rows, HeldUnder(m, leaseId));
      case Restart =>
        var i :| 0 <= i < |t'.rows| && t'.rows[i] == y;
        assert t.rows[i] in t.rows;
      case Stats(now) => InWithout(t.rows, Expired(Cutoff(cfg, now)));
    }
    if op.Store? { StoreNextId(cfg, t, op.q, op.throttled, op.out, t'); }
  }

  lemma StoreNextId(cfg: Config, t: Table, q: StoreRequest, throttled: bool, out: StoreResult, t': Table)
    requires StoreStep(cfg, t, q, throttled, out, t')
    ensures t'.nextId == if out.Stored? then t.nextId + 1 else t.nextId
  {
    hide Select, Without, Bytes, Count, NotSooner, RoomMade, Cleared, Victims, AfterVictims, MailboxFits, SourceOver, TotalFits;
  }

  // A leased row is held under the lease it was last handed out under.
  lemma {:induction false} LeaseProvenance(cfg: Config, log: Log, y: Row)
    requires Run(cfg, log) && y in Now(log).rows && y.lease.Some?
    ensures LastLease(cfg, log, y.id) == Some(y.lease.value.id)
  {
    hide Good, Step, TakeResult, Consumed;
    AlwaysGood(cfg, log.earlier);
    var t := Now(log.earlier);
    StepDescends(cfg, t, log.op, log.after);
    assert Descends(t, log.op, HandedIds(cfg, t, log.op), y);
    var x :| x in t.rows && y == x.(lease := y.lease) &&
      (y.lease == x.lease || y.lease.None? ||
       (log.op.Take? && log.op.lease.Some? && x.id in HandedIds(cfg, t, log.op) && y.lease == TakeLease(log.op.lease, log.op.now)));
    if log.op.Take? && log.op.lease.Some? && x.id in HandedIds(cfg, t, log.op) {
      LeasedByTake(cfg, t, log.op, log.after, y);
    } else {
      LeaseProvenance(cfg, log.earlier, x);
    }
  }

  // A row handed out under a lease comes out of that fetch holding it.
  lemma LeasedByTake(cfg: Config, t: Table, op: Op, t': Table, y: Row)
    requires Good(cfg, t) && op.Take? && op.lease.Some? && Step(cfg, t, op, t')
    requires y in t'.rows && y.id in HandedIds(cfg, t, op)
    ensures y.lease == TakeLease(op.lease, op.now)
  {
    hide Without, Select, Bytes, Count, Quotas, Sorted, Handed;
    var ready := ReadyRows(cfg, t.rows, op.now);
    var i :| 0 <= i < |t'.rows| && t'.rows[i] == y;
    assert t'.rows[i] == LeaseRow(ready[i], HandedIds(cfg, t, op), TakeLease(op.lease, op.now).value);
  }

  // From one log to a later one without reopening the database.
  ghost predicate Continues(log: Log, from: Log) {
    log == from || (log.Did? && !log.op.Restart? && Continues(log.earlier, from))
  }

  // Until its deadline a leased row keeps its lease, or is gone.
  lemma {:induction false} LeaseKept(cfg: Config, from: Log, log: Log, y: Row)
    requires Run(cfg, log) && Continues(log, from) && ClockForward(log, from) && from.Did? && from.op.Take? && from.op.lease.Some?
    requires y in Now(log).rows && y.id in Consumed(HandedBy(cfg, from))
    requires TimeOf(log) < TakeLease(from.op.lease, from.op.now).value.until
    ensures y.lease == TakeLease(from.op.lease, from.op.now)
  {
    hide Good, Step, TakeResult, Consumed;
    AlwaysGood(cfg, log.earlier);
    var t := Now(log.earlier);
    if log == from {
      LeasedByTake(cfg, t, log.op, log.after, y);
    } else {
      StepDescends(cfg, t, log.op, log.after);
      LaterIds(cfg, from, log.earlier, y.id);
      assert Descends(t, log.op, HandedIds(cfg, t, log.op), y);
      var x :| x in t.rows && y == x.(lease := y.lease);
      LeaseKept(cfg, from, log.earlier, x);
      LeaseSurvives(cfg, t, log.op, log.after, x, y);
    }
  }

  // Ids only grow: a row handed out is older than every later new row.
  lemma {:induction false} LaterIds(cfg: Config, from: Log, log: Log, id: nat)
    requires Run(cfg, log) && Continues(log, from) && from.Did? && from.op.Take?
    requires id in Consumed(HandedBy(cfg, from))
    ensures id < Now(log).nextId
  {
    hide Good, Step;
    AlwaysGood(cfg, log.earlier);
    if log == from {
      HandedFromTable(cfg, Now(log.earlier), log.op, id);
      StepDescends(cfg, Now(log.earlier), log.op, log.after);
      GoodIds(cfg, Now(log.earlier));
    } else {
      LaterIds(cfg, from, log.earlier, id);
      StepDescends(cfg, Now(log.earlier), log.op, log.after);
    }
  }

  lemma GoodIds(cfg: Config, t: Table)
    requires Good(cfg, t)
    ensures Sorted(t.rows) && forall r :: r in t.rows ==> r.id < t.nextId
  {
  }

  // A handed-out row is one of the table's, not expired, and unleased or lapsed.
  lemma HandedFromTable(cfg: Config, t: Table, op: Op, id: nat)
    requires op.Take? && id in Ids(TakeResult(cfg, t, op.m, op.limit, op.lease, op.now).1)
    ensures exists x :: x in t.rows && x.id == id && x.mailbox == op.m && x.at >= Cutoff(cfg, op.now)
                        && (x.lease.None? || x.lease.value.until <= op.now)
  {
    hide Without, Select, Bytes, Count, Taken;
    var live := Live(cfg, t.rows, op.now);
    var ready := ReadyRows(cfg, t.rows, op.now);
    var handed := Handed(ready, op.m, op.limit);
    InSelect(ready, UnleasedIn(op.m));
    InWithout(t.rows, Expired(Cutoff(cfg, op.now)));
    var h :| h in handed && h.id == id;
    assert h in Select(ready, UnleasedIn(op.m));
    var i :| 0 <= i < |ready| && ready[i] == h;
    assert live[i] in live;
  }

  // No step but a restart takes a lease away before its deadline.
  lemma LeaseSurvives(cfg: Config, t: Table, op: Op, t': Table, x: Row, y: Row)
    requires Good(cfg, t) && Step(cfg, t, op, t') && !op.Restart?
    requires x in t.rows && y in t'.rows && y == x.(lease := y.lease)
    requires x.lease.Some? && Clock(op, 0) < x.lease.value.until
    ensures y.lease == x.lease
  {
    hide Select, Without, Bytes, Count, Quotas, StoreTail, IsDuplicate, StoreStep, Handed;
    match op
    case Store(q, throttled, out) =>
      StoredRows(cfg, t, q, throttled, out, t');
      SameId(t.rows, x, if y in t.rows then y else x);
    case Take(m, limit, lease, now) => TakeKeepsLease(cfg, t, op, x, y);
    case Ack(m, leaseId) =>
      InWithout(t.rows, HeldUnder(m, leaseId));
      SameId(t.rows, x, y);
    case Stats(now) =>
      InWithout(t.rows, Expired(Cutoff(cfg, now)));
      SameId(t.rows, x, y);
  }

  lemma TakeKeepsLease(cfg: Config, t: Table, op: Op, x: Row, y: Row)
    requires Good(cfg, t) && op.Take?
    requires x in t.rows && y in TakeResult(cfg, t, op.m, op.limit, op.lease, op.now).0.rows && y.id == x.id
    requires x.lease.Some? && op.now < x.lease.value.until
    ensures y.lease == x.lease
  {
    hide Without, Select, Bytes, Count, Quotas, Handed;
    var live := Live(cfg, t.rows, op.now);
    var ready := ReadyRows(cfg, t.rows, op.now);
    var handed := Handed(ready, op.m, op.limit);
    InWithout(t.rows, Expired(Cutoff(cfg, op.now)));
    if x.id in Consumed(handed) {
      HandedFromTable(cfg, t, op, x.id);
      var z :| z in t.rows && z.id == x.id && (z.lease.None? || z.lease.value.until <= op.now);
      SameId(t.rows, x, z);
    }
    match TakeLease(op.lease, op.now)
    case None =>
      InWithout(ready, AnyOf(Consumed(handed)));
      var i :| 0 <= i < |ready| && ready[i] == y;
      assert live[i] in live;
      SameId(t.rows, x, live[i]);
    case Some(l) =>
      var rows := LeaseTo(ready, Consumed(handed), l);
      var i :| 0 <= i < |rows| && rows[i] == y;
      assert live[i] in live;
      SameId(t.rows, x, live[i]);
  }

  // Lease exclusivity: what a leased fetch handed out, no fetch hands out
  // again before the deadline, unless the database was reopened.
  lemma LeaseExclusive(cfg: Config, from: Log, log: Log, id: nat)
    requires Run(cfg, log) && log.Did? && log.op.Take? && Continues(log.earlier, from) && ClockForward(log, from) && log != from
    requires from.Did? && from.op.Take? && from.op.lease.Some? && id in Consumed(HandedBy(cfg, from))
    requires log.op.now < TakeLease(from.op.lease, from.op.now).value.until
    ensures id !in Ids(HandedBy(cfg, log))
  {
    hide Good, Step, TakeResult, Consumed;
    if id in Ids(HandedBy(cfg, log)) {
      HandedFromTable(cfg, Now(log.earlier), log.op, id);
      var x :| x in Now(log.earlier).rows && x.id == id && (x.lease.None? || x.lease.value.until <= log.op.now);
      LeaseKept(cfg, from, log.earlier, x);
    }
  }

  // A stale acknowledgement deletes nothing: not a row whose last lease is
  // another, as one is that was leased again.
  lemma StaleAck(cfg: Config, log: Log, m: string, leaseId: string, y: Row)
    requires Run(cfg, log) && y in Now(log).rows && LastLease(cfg, log, y.id) != Some(leaseId)
    ensures y in AckResult(Now(log), m, leaseId).0.rows
  {
    hide Step, Bytes, Without;
    InWithout(Now(log).rows, HeldUnder(m, leaseId));
    if HeldUnder(m, leaseId)(y) { LeaseProvenance(cfg, log, y); }
  }

  // ---- Accounting for every message ------------------------------------------

  // The operation before which [r] was a new row.
  ghost predicate WasStored(log: Log, r: Row) {
    log.Did? &&
    (WasStored(log.earlier, r)
     || (log.op.Store? && log.op.out.Stored? && r == NewRow(Now(log.earlier), log.op.q)))
  }

  ghost predicate Queued(t: Table, r: Row) {
    exists x :: x in t.rows && x == r.(lease := x.lease)
  }

  // Why an operation may take the row x out of the table.
  ghost predicate MayLeave(cfg: Config, log: Log, x: Row)
    requires log.Did?
  {
    match log.op
    case Store(q, _, out) =>
      // its time was up, or it made room that was needed while not leased
      !out.Refused? &&
      (x.at < Cutoff(cfg, q.now) || (out.Stored? && x.lease.None? && RoomNeeded(cfg, Now(log.earlier), q, x)))
    case Take(_, _, lease, now) =>
      x.at < Cutoff(cfg, now) || (lease.None? && x.id in Ids(HandedBy(cfg, log)))
    case Ack(m, leaseId) =>
      // acknowledged under the lease it was last handed out under
      x.mailbox == m && x.lease.Some? && x.lease.value.id == leaseId && LastLease(cfg, log.earlier, x.id) == Some(leaseId)
    case Restart => false
    case Stats(now) => x.at < Cutoff(cfg, now)
  }

  ghost predicate HasLeft(cfg: Config, log: Log, r: Row) {
    log.Did? &&
    (HasLeft(cfg, log.earlier, r)
     || (!Queued(log.after, r) &&
         exists x :: x in Now(log.earlier).rows && x == r.(lease := x.lease) && MayLeave(cfg, log, x)))
  }

  lemma TakeAccounts(cfg: Config, t: Table, op: Op, x: Row)
    requires Good(cfg, t) && op.Take? && x in t.rows
    ensures var (t', handed) := TakeResult(cfg, t, op.m, op.limit, op.lease, op.now);
            || Queued(t', x)
            || x.at < Cutoff(cfg, op.now)
            || (op.lease.None? && x.id in Ids(handed))
  {
    hide Without, Select, Bytes, Count, Quotas, Handed;
    var live := Live(cfg, t.rows, op.now);
    var ready := ReadyRows(cfg, t.rows, op.now);
    var handed := Handed(ready, op.m, op.limit);
    InWithout(t.rows, Expired(Cutoff(cfg, op.now)));
    if x.at >= Cutoff(cfg, op.now) {
      var i :| 0 <= i < |live| && live[i] == x;
      assert ready[i] in ready;
      match TakeLease(op.lease, op.now)
      case None =>
        InWithout(ready, AnyOf(Consumed(handed)));
        if x.id !in Consumed(handed) { assert ready[i] in Without(ready, AnyOf(Consumed(handed))); }
      case Some(l) =>
        assert LeaseTo(ready, Consumed(handed), l)[i] in LeaseTo(ready, Consumed(handed), l);
    }
  }

  // One operation: each row stays, or leaves for one of the reasons.
  lemma StepAccounts(cfg: Config, log: Log, x: Row)
    requires Run(cfg, log) && log.Did? && x in Now(log.earlier).rows
    ensures Queued(log.after, x) || MayLeave(cfg, log, x)
  {
    hide Good, Without, Bytes, StoreTail, IsDuplicate, Handed, Taken, Queued;
    var t := Now(log.earlier);
    AlwaysGood(cfg, log.earlier);
    match log.op
    case Store(q, throttled, out) =>
      StoredRows(cfg, t, q, throttled, out, log.after);
      if x in log.after.rows { StillQueued(log.after, x, x); }
    case Take(m, limit, lease, now) => TakeAccounts(cfg, t, log.op, x);
    case Ack(m, leaseId) =>
      InWithout(t.rows, HeldUnder(m, leaseId));
      if x in log.after.rows { StillQueued(log.after, x, x); }
      else { LeaseProvenance(cfg, log.earlier, x); }
    case Restart =>
      var i :| 0 <= i < |t.rows| && t.rows[i] == x;
      assert log.after.rows[i] == x.(lease := None);
      StillQueued(log.after, x, log.after.rows[i]);
    case Stats(now) =>
      InWithout(t.rows, Expired(Cutoff(cfg, now)));
      if x in log.after.rows { StillQueued(log.after, x, x); }
  }

  lemma StillQueued(t: Table, r: Row, x: Row)
    requires x in t.rows && x == r.(lease := x.lease)
    ensures Queued(t, r)
  {
  }

  // Every message ever stored is queued still, or has left by its time
  // running out, by making room while unleased, by a legacy fetch that
  // returned it, or by an acknowledgement of the very lease it was last
  // handed out under.
  lemma {:induction false} Accounted(cfg: Config, log: Log, r: Row)
    requires Run(cfg, log) && WasStored(log, r)
    ensures Queued(Now(log), r) || HasLeft(cfg, log, r)
  {
    hide Good, Step, MayLeave;
    var t := Now(log.earlier);
    if WasStored(log.earlier, r) {
      Accounted(cfg, log.earlier, r);
      if Queued(t, r) {
        var x :| x in t.rows && x == r.(lease := x.lease);
        StepAccounts(cfg, log, x);
      }
    } else {
      AlwaysGood(cfg, log.earlier);
      StoreInserts(cfg, t, log.op, log.after);
      StillQueued(log.after, r, r);
    }
  }

  lemma StoreInserts(cfg: Config, t: Table, op: Op, t': Table)
    requires Good(cfg, t) && Step(cfg, t, op, t') && op.Store? && op.out.Stored?
    ensures NewRow(t, op.q) in t'.rows
  {
    hide StoreStep, Good;
    StoredRows(cfg, t, op.q, op.throttled, op.out, t');
  }

  lemma {:induction false} StoredIds(cfg: Config, log: Log, r: Row)
    requires Run(cfg, log) && WasStored(log, r)
    ensures r.id < Now(log).nextId
  {
    hide Good, Step;
    AlwaysGood(cfg, log.earlier);
    StepDescends(cfg, Now(log.earlier), log.op, log.after);
    if WasStored(log.earlier, r) {
      StoredIds(cfg, log.earlier, r);
    } else {
      AlwaysGood(cfg, log);
      StoreInserts(cfg, Now(log.earlier), log.op, log.after);
      GoodIds(cfg, Now(log));
    }
  }

  // ... and what has left never comes back.
  lemma {:induction false} GoneForGood(cfg: Config, log: Log, r: Row)
    requires Run(cfg, log) && WasStored(log, r) && HasLeft(cfg, log, r)
    ensures !Queued(Now(log), r)
  {
    hide Good, Step, MayLeave;
    var t := Now(log.earlier);
    AlwaysGood(cfg, log.earlier);
    GoodIds(cfg, t);
    if HasLeft(cfg, log.earlier, r) {
      LeftWasStored(cfg, log.earlier, r);
      if WasStored(log.earlier, r) {
        GoneForGood(cfg, log.earlier, r);
        StoredIds(cfg, log.earlier, r);
        NotBack(cfg, t, log.op, log.after, r);
      }
    }
  }

  // A row that is not queued and is older than the next id is not made again.
  lemma NotBack(cfg: Config, t: Table, op: Op, t': Table, r: Row)
    requires Good(cfg, t) && Step(cfg, t, op, t') && !Queued(t, r) && r.id < t.nextId
    ensures !Queued(t', r)
  {
    hide Good, Step, HandedIds;
    StepDescends(cfg, t, op, t');
    forall y | y in t'.rows && y == r.(lease := y.lease) ensures false {
      assert Descends(t, op, HandedIds(cfg, t, op), y);
      var x :| x in t.rows && y == x.(lease := y.lease);
      StillQueued(t, r, x);
    }
  }

  // Only rows that were stored are ever in the table.
  lemma {:induction false} RowsWereStored(cfg: Config, log: Log, y: Row)
    requires Run(cfg, log) && y in Now(log).rows
    ensures WasStored(log, y.(lease := None))
  {
    hide Good, Step, HandedIds;
    var t := Now(log.earlier);
    AlwaysGood(cfg, log.earlier);
    StepDescends(cfg, t, log.op, log.after);
    if !(log.op.Store? && log.op.out.Stored? && y == NewRow(t, log.op.q)) {
      assert Descends(t, log.op, HandedIds(cfg, t, log.op), y);
      var x :| x in t.rows && y == x.(lease := y.lease);
      RowsWereStored(cfg, log.earlier, x);
      assert x.(lease := None) == y.(lease := None);
    }
  }

  lemma {:induction false} LeftWasStored(cfg: Config, log: Log, r: Row)
    requires Run(cfg, log) && HasLeft(cfg, log, r)
    ensures WasStored(log, r.(lease := None))
  {
    hide Good, Step, MayLeave;
    if HasLeft(cfg, log.earlier, r) {
      LeftWasStored(cfg, log.earlier, r);
    } else {
      var x :| x in Now(log.earlier).rows && x == r.(lease := x.lease);
      RowsWereStored(cfg, log.earlier, x);
      assert x.(lease := None) == r.(lease := None);
    }
  }
}
