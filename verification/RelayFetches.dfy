// What a fetch hands out, and what it and the relay's other operations do to
// each row, said of the rows' own fields; and over runs, that what was fetched
// and never acknowledged is handed out again.
module RelayFetches {
  import opened Options
  import opened RelayTable
  import opened RelayStore
  import opened RelayQueue
  import opened RelayRuns
  import opened RelayAnswers

  // A row that a fetch of m at that time may hand out.
  predicate Waits(cfg: Config, r: Row, m: string, now: nat) {
    r.mailbox == m && r.at + cfg.ttl >= now && (r.lease.None? || r.lease.value.until <= now)
  }

  function Waiting(cfg: Config, m: string, now: nat): Selector { (r: Row) => Waits(cfg, r, m, now) }

  // ... and does: fewer than limit such rows are older.
  ghost predicate GoesOut(cfg: Config, t: Table, r: Row, m: string, limit: nat, now: nat) {
    Waits(cfg, r, m, now) && Count(t.rows, Below(Waiting(cfg, m, now), r.id)) < limit
  }

  // The rows a fetch chooses from, one by one.
  lemma ReadyIs(cfg: Config, t: Table, now: nat)
    requires Sorted(t.rows)
    ensures var live, ready := Live(cfg, t.rows, now), ReadyRows(cfg, t.rows, now);
            && |ready| == |live| && Sorted(live) && Sorted(ready)
            && (forall r :: r in live <==> r in t.rows && InTime(cfg, r, now))
            && forall i :: 0 <= i < |live| ==>
                 ready[i] == live[i].(lease := if live[i].lease.Some? && live[i].lease.value.until <= now then None else live[i].lease)
  {
    hide Live;
    LiveRows(cfg, t.rows, now);
  }

  lemma ReadyWaits(cfg: Config, t: Table, m: string, now: nat, i: nat, id: nat)
    requires Sorted(t.rows) && i < |Live(cfg, t.rows, now)|
    ensures |ReadyRows(cfg, t.rows, now)| == |Live(cfg, t.rows, now)|
    ensures var x, y := Live(cfg, t.rows, now)[i], ReadyRows(cfg, t.rows, now)[i];
            && (UnleasedIn(m)(y) <==> Waits(cfg, x, m, now)) && y.id == x.id
            && (Below(UnleasedIn(m), id)(y) <==> Below(Waiting(cfg, m, now), id)(x))
            && (Waits(cfg, x, m, now) ==> y == x.(lease := None))
  {
    hide Live, ReadyRows, Sorted;
    ReadyIs(cfg, t, now);
    assert Live(cfg, t.rows, now)[i] in Live(cfg, t.rows, now);
  }

  // In the selection of a sorted table, a row's place is how many of the
  // selected come before it.
  lemma SelectedFirst(rows: seq<Row>, s: Selector, y: Row, limit: nat)
    requires Sorted(rows)
    ensures y in FirstOf(Select(rows, s), limit) <==> y in rows && s(y) && Count(rows, Below(s, y.id)) < limit
  {
    hide Select, Count, Sorted;
    var p := Select(rows, s);
    InSelect(rows, s);
    SelectSorted(rows, s);
    MeasureSelected(rows, s, Below(s, y.id), Below(s, y.id));
    if y in p {
      var i :| 0 <= i < |p| && p[i] == y;
      PlaceIs(p, i, s);
      FirstIs(p, i, limit);
    } else {
      assert y in FirstOf(p, limit) ==> y in p;
    }
  }

  lemma FirstIs(p: seq<Row>, i: nat, limit: nat)
    requires Sorted(p) && i < |p|
    ensures p[i] in FirstOf(p, limit) <==> i < limit
  {
    if i < limit { assert FirstOf(p, limit)[i] == p[i]; }
  }

  lemma OlderWaiting(cfg: Config, t: Table, m: string, now: nat, id: nat)
    requires Sorted(t.rows)
    ensures Count(ReadyRows(cfg, t.rows, now), Below(UnleasedIn(m), id)) == Count(t.rows, Below(Waiting(cfg, m, now), id))
  {
    hide Live, ReadyRows, Sorted, Count;
    var live, ready := Live(cfg, t.rows, now), ReadyRows(cfg, t.rows, now);
    ReadyIs(cfg, t, now);
    forall i | 0 <= i < |ready| ensures Below(UnleasedIn(m), id)(ready[i]) <==> Below(Waiting(cfg, m, now), id)(live[i]) {
      ReadyWaits(cfg, t, m, now, i, id);
    }
    CountPaired(ready, live, Below(UnleasedIn(m), id), Below(Waiting(cfg, m, now), id));
    FreshOlder(cfg, t, m, now, id);
  }

  lemma FreshOlder(cfg: Config, t: Table, m: string, now: nat, id: nat)
    requires Sorted(t.rows)
    ensures Count(Live(cfg, t.rows, now), Below(Waiting(cfg, m, now), id)) == Count(t.rows, Below(Waiting(cfg, m, now), id))
  {
    hide Sorted;
    LiveRows(cfg, t.rows, now);
    MeasureLeft(t.rows, Expired(Cutoff(cfg, now)), Below(Waiting(cfg, m, now), id), Below(Waiting(cfg, m, now), id));
  }

  // A row is handed out exactly when it is in the mailbox, fresh, under no
  // lease or a lapsed one, and fewer than limit such rows are older. The rows
  // come in id order, without their leases.
  lemma HandedExactly(cfg: Config, t: Table, m: string, limit: nat, lease: Option<(string, nat)>, now: nat)
    requires Good(cfg, t)
    ensures var handed := TakeResult(cfg, t, m, limit, lease, now).1;
            && Sorted(handed)
            && (forall x :: x in t.rows ==> (x.(lease := None) in handed <==> GoesOut(cfg, t, x, m, limit, now)))
            && forall y :: y in handed ==> exists x :: x in t.rows && y == x.(lease := None)
  {
    hide Good, Select, Count, Bytes, Sorted, Live, ReadyRows, Waits, Taken;
    var live, ready := Live(cfg, t.rows, now), ReadyRows(cfg, t.rows, now);
    var handed := TakeResult(cfg, t, m, limit, lease, now).1;
    GoodIds(cfg, t);
    ReadyIs(cfg, t, now);
    HandedSorted(ready, m, limit);
    forall y | y in handed ensures exists x :: x in t.rows && y == x.(lease := None) {
      SelectedFirst(ready, UnleasedIn(m), y, limit);
      var i :| 0 <= i < |ready| && ready[i] == y;
      ReadyWaits(cfg, t, m, now, i, 0);
      assert live[i] in t.rows;
    }
    forall x | x in t.rows ensures x.(lease := None) in handed <==> GoesOut(cfg, t, x, m, limit, now) {
      OneHanded(cfg, t, m, limit, now, x);
    }
  }

  lemma HandedSorted(ready: seq<Row>, m: string, limit: nat)
    requires Sorted(ready)
    ensures Sorted(Handed(ready, m, limit))
  {
    SelectSorted(ready, UnleasedIn(m));
  }

  lemma OneHanded(cfg: Config, t: Table, m: string, limit: nat, now: nat, x: Row)
    requires Sorted(t.rows) && x in t.rows
    ensures x.(lease := None) in Handed(ReadyRows(cfg, t.rows, now), m, limit) <==> GoesOut(cfg, t, x, m, limit, now)
  {
    hide Select, Count, Sorted, Live, ReadyRows;
    var live, ready, y := Live(cfg, t.rows, now), ReadyRows(cfg, t.rows, now), x.(lease := None);
    ReadyIs(cfg, t, now);
    SelectedFirst(ready, UnleasedIn(m), y, limit);
    OlderWaiting(cfg, t, m, now, x.id);
    if y in ready {
      var i :| 0 <= i < |ready| && ready[i] == y;
      ReadyWaits(cfg, t, m, now, i, 0);
      assert live[i] in live;
      SameId(t.rows, live[i], x);
    }
    if Waits(cfg, x, m, now) {
      var i :| 0 <= i < |live| && live[i] == x;
      ReadyWaits(cfg, t, m, now, i, 0);
      assert ready[i] in ready;
    }
  }

  // ---- The rows after a fetch -----------------------------------------------------

  predicate Lapsed(r: Row, now: nat) { r.lease.Some? && r.lease.value.until <= now }

  // What becomes of x: handed out it is leased, or deleted by a legacy fetch,
  // unless it is an announcement; otherwise only a lapsed lease goes.
  ghost predicate Becomes(cfg: Config, t: Table, m: string, limit: nat, lease: Option<(string, nat)>, now: nat, x: Row, y: Row) {
    var out := GoesOut(cfg, t, x, m, limit, now) && !Announces(x.envelope);
    && InTime(cfg, x, now) && !(out && lease.None?)
    && y == x.(lease := if out then Some(Lease(lease.value.0, now + lease.value.1)) else if Lapsed(x, now) then None else x.lease)
  }

  lemma RowsAfterFetch(cfg: Config, t: Table, m: string, limit: nat, lease: Option<(string, nat)>, now: nat)
    requires Good(cfg, t)
    ensures var t' := TakeResult(cfg, t, m, limit, lease, now).0;
            forall y :: y in t'.rows <==> exists x :: x in t.rows && Becomes(cfg, t, m, limit, lease, now, x, y)
    ensures Consumed(TakeResult(cfg, t, m, limit, lease, now).1) != {} <==>
              exists x :: x in t.rows && GoesOut(cfg, t, x, m, limit, now) && !Announces(x.envelope)
  {
    hide Good, Select, Without, Count, Bytes, Sorted, Live, ReadyRows, GoesOut, Handed;
    var live, ready := Live(cfg, t.rows, now), ReadyRows(cfg, t.rows, now);
    var t', handed := TakeResult(cfg, t, m, limit, lease, now).0, TakeResult(cfg, t, m, limit, lease, now).1;
    GoodIds(cfg, t);
    ReadyIs(cfg, t, now);
    HandedExactly(cfg, t, m, limit, lease, now);
    forall i | 0 <= i < |ready|
      ensures ready[i].id in Consumed(handed) <==> GoesOut(cfg, t, live[i], m, limit, now) && !Announces(live[i].envelope)
    {
      ConsumedIs(cfg, t, m, limit, lease, now, i);
    }
    forall y ensures y in t'.rows <==> exists x :: x in t.rows && Becomes(cfg, t, m, limit, lease, now, x, y) {
      if y in t'.rows { AfterComesFrom(cfg, t, m, limit, lease, now, y); }
      if exists x :: x in t.rows && Becomes(cfg, t, m, limit, lease, now, x, y) {
        var x :| x in t.rows && Becomes(cfg, t, m, limit, lease, now, x, y);
        BecomesAfter(cfg, t, m, limit, lease, now, x, y);
      }
    }
    SomeConsumed(cfg, t, m, limit, lease, now);
  }

  lemma ConsumedIs(cfg: Config, t: Table, m: string, limit: nat, lease: Option<(string, nat)>, now: nat, i: nat)
    requires Good(cfg, t) && i < |Live(cfg, t.rows, now)|
    ensures |ReadyRows(cfg, t.rows, now)| == |Live(cfg, t.rows, now)|
    ensures var x, handed := Live(cfg, t.rows, now)[i], TakeResult(cfg, t, m, limit, lease, now).1;
            ReadyRows(cfg, t.rows, now)[i].id in Consumed(handed) <==> GoesOut(cfg, t, x, m, limit, now) && !Announces(x.envelope)
  {
    hide Good, Select, Without, Count, Bytes, Sorted, Live, ReadyRows, GoesOut, TakeResult;
    var live, handed := Live(cfg, t.rows, now), TakeResult(cfg, t, m, limit, lease, now).1;
    GoodIds(cfg, t);
    ReadyIs(cfg, t, now);
    HandedExactly(cfg, t, m, limit, lease, now);
    var x := live[i];
    assert x in t.rows;
    if x.id in Consumed(handed) {
      var y :| y in handed && !y.envelope.IsPairing() && y.id == x.id;
      var z :| z in t.rows && y == z.(lease := None);
      SameId(t.rows, x, z);
    }
    if GoesOut(cfg, t, x, m, limit, now) && !Announces(x.envelope) {
      assert x.(lease := None) in handed && !x.(lease := None).envelope.IsPairing();
    }
  }

  lemma AfterComesFrom(cfg: Config, t: Table, m: string, limit: nat, lease: Option<(string, nat)>, now: nat, y: Row)
    requires Good(cfg, t) && y in TakeResult(cfg, t, m, limit, lease, now).0.rows
    ensures exists x :: x in t.rows && Becomes(cfg, t, m, limit, lease, now, x, y)
  {
    hide Good, Select, Without, Count, Bytes, Sorted, Live, ReadyRows, GoesOut, Handed;
    var live, ready := Live(cfg, t.rows, now), ReadyRows(cfg, t.rows, now);
    var handed := Handed(ready, m, limit);
    GoodIds(cfg, t);
    ReadyIs(cfg, t, now);
    var i: nat;
    match TakeLease(lease, now) {
      case None =>
        InWithout(ready, AnyOf(Consumed(handed)));
        i :| 0 <= i < |ready| && ready[i] == y;
      case Some(l) =>
        var rows := LeaseTo(ready, Consumed(handed), l);
        i :| 0 <= i < |rows| && rows[i] == y;
    }
    ConsumedIs(cfg, t, m, limit, lease, now, i);
    assert live[i] in live && Becomes(cfg, t, m, limit, lease, now, live[i], y);
  }

  lemma BecomesAfter(cfg: Config, t: Table, m: string, limit: nat, lease: Option<(string, nat)>, now: nat, x: Row, y: Row)
    requires Good(cfg, t) && x in t.rows && Becomes(cfg, t, m, limit, lease, now, x, y)
    ensures y in TakeResult(cfg, t, m, limit, lease, now).0.rows
  {
    hide Good, Select, Without, Count, Bytes, Sorted, Live, ReadyRows, GoesOut, Handed;
    var live, ready := Live(cfg, t.rows, now), ReadyRows(cfg, t.rows, now);
    var handed := Handed(ready, m, limit);
    GoodIds(cfg, t);
    ReadyIs(cfg, t, now);
    var i: nat :| i < |live| && live[i] == x;
    ConsumedIs(cfg, t, m, limit, lease, now, i);
    match TakeLease(lease, now) {
      case None =>
        InWithout(ready, AnyOf(Consumed(handed)));
        assert ready[i] in ready;
      case Some(l) => assert LeaseTo(ready, Consumed(handed), l)[i] == y;
    }
  }

  lemma SomeConsumed(cfg: Config, t: Table, m: string, limit: nat, lease: Option<(string, nat)>, now: nat)
    requires Good(cfg, t)
    ensures Consumed(TakeResult(cfg, t, m, limit, lease, now).1) != {} <==>
              exists x :: x in t.rows && GoesOut(cfg, t, x, m, limit, now) && !Announces(x.envelope)
  {
    hide Good, TakeResult, GoesOut, Sorted;
    var handed := TakeResult(cfg, t, m, limit, lease, now).1;
    HandedExactly(cfg, t, m, limit, lease, now);
    if Consumed(handed) != {} {
      var id :| id in Consumed(handed);
      var y :| y in handed && !y.envelope.IsPairing() && y.id == id;
      var x :| x in t.rows && y == x.(lease := None);
      assert GoesOut(cfg, t, x, m, limit, now);
    }
    if exists x :: x in t.rows && GoesOut(cfg, t, x, m, limit, now) && !Announces(x.envelope) {
      var x :| x in t.rows && GoesOut(cfg, t, x, m, limit, now) && !Announces(x.envelope);
      assert x.(lease := None) in handed;
      assert x.(lease := None).id in Consumed(handed);
    }
  }

  // ---- The other operations ---------------------------------------------------------

  // An acknowledgement takes out exactly the mailbox's rows held under its lease.
  lemma AckExactly(t: Table, m: string, leaseId: string)
    ensures var (t', ok) := AckResult(t, m, leaseId);
            && (ok <==> MailboxName(m) && 16 <= |leaseId| <= 128)
            && forall y :: y in t'.rows <==> y in t.rows && !(ok && y.mailbox == m && y.lease.Some? && y.lease.value.id == leaseId)
  {
    hide Without, Bytes, ValidMailbox, MailboxName;
    NamesAgree(m);
    InWithout(t.rows, HeldUnder(m, leaseId));
  }

  // Reopening leaves every row, and no lease.
  lemma RestartExactly(t: Table)
    ensures var rows := Unlease(t.rows);
            |rows| == |t.rows| && forall i :: 0 <= i < |rows| ==> rows[i] == t.rows[i].(lease := None)
  {
  }

  // ---- Quotas -----------------------------------------------------------------------

  function FromSender(m: string, sender: string): Selector {
    (r: Row) => r.mailbox == m && Announces(r.envelope) && r.envelope.sender == Some(sender)
  }
  function AnnouncedIn(m: string): Selector { (r: Row) => r.mailbox == m && Announces(r.envelope) }
  function WithId(m: string, id: string): Selector { (r: Row) => r.mailbox == m && r.envelope.messageId == Some(id) }

  // In every reachable state, and in the rows' own fields: all seven quotas.
  lemma QuotasInFull(cfg: Config, log: Log)
    requires Run(cfg, log)
    ensures var rows := Now(log).rows;
            && (forall m :: Count(rows, Here(m)) <= cfg.maxQueue && Bytes(rows, Here(m)) <= cfg.maxMailboxBytes)
            && (forall m :: Count(rows, AnnouncedIn(m)) <= 8)
            && (forall m, d :: Count(rows, FromSender(m, d)) <= 1)
            && (forall m, k :: 1 <= |k| <= 256 ==> Count(rows, WithId(m, k)) <= 1)
            && (forall o :: Bytes(rows, From(Some(o))) <= cfg.maxPerSource)
            && Bytes(rows, All()) <= cfg.maxTotal && Now(log).total == Bytes(rows, All())
  {
    hide Count, Bytes, Sorted;
    AlwaysGood(cfg, log);
    var rows := Now(log).rows;
    forall m ensures Count(rows, Here(m)) <= cfg.maxQueue && Bytes(rows, Here(m)) <= cfg.maxMailboxBytes {
      SameMeasure(rows, InMailbox(m), Here(m));
    }
    forall m ensures Count(rows, AnnouncedIn(m)) <= 8 { SameMeasure(rows, Pairing(m), AnnouncedIn(m)); }
    forall m, d ensures Count(rows, FromSender(m, d)) <= 1 { SameMeasure(rows, PairingFrom(m, d), FromSender(m, d)); }
    forall m, k | 1 <= |k| <= 256 ensures Count(rows, WithId(m, k)) <= 1 { SameMeasure(rows, Keyed(m, k), WithId(m, k)); }
    forall o ensures Bytes(rows, From(Some(o))) <= cfg.maxPerSource { SameMeasure(rows, FromSource(o), From(Some(o))); }
    SameMeasure(rows, Everything(), All());
  }

  // ---- What was not acknowledged comes again ---------------------------------------------

  // Since the fetch, no acknowledgement of its lease, no reopening, and no
  // reading of the clock from its deadline on.
  ghost predicate Unacknowledged(log: Log, from: Log, m: string, leaseId: string, deadline: nat) {
    log == from ||
    (log.Did? && Unacknowledged(log.earlier, from, m, leaseId, deadline)
     && !log.op.Restart? && !(log.op.Ack? && log.op.m == m && log.op.leaseId == leaseId)
     && (log.op.Store? ==> log.op.q.now < deadline) && (log.op.Take? ==> log.op.now < deadline)
     && (log.op.Stats? ==> log.op.now < deadline))
  }

  // Until its deadline an unacknowledged row keeps its place and its lease.
  lemma {:induction false} StaysLeased(cfg: Config, from: Log, log: Log, x: Row, leaseId: string, ms: nat)
    requires Run(cfg, log) && from.Did? && from.op.Take? && from.op.lease == Some((leaseId, ms))
    requires Unacknowledged(log, from, from.op.m, leaseId, from.op.now + ms) && x.at + cfg.ttl >= from.op.now + ms
    requires x in Now(from.earlier).rows && !Announces(x.envelope)
    requires GoesOut(cfg, Now(from.earlier), x, from.op.m, from.op.limit, from.op.now)
    ensures x.(lease := Some(Lease(leaseId, from.op.now + ms))) in Now(log).rows
    ensures Run(cfg, from)
  {
    hide Good, Step, Run, GoesOut;
    var y := x.(lease := Some(Lease(leaseId, from.op.now + ms)));
    if log == from {
      FetchedNow(cfg, from, x, leaseId, ms);
    } else {
      RunOne(cfg, log);
      StaysLeased(cfg, from, log.earlier, x, leaseId, ms);
      FetchedMailbox(cfg, from, x);
      LeasedStaysOne(cfg, Now(log.earlier), log.op, log.after, y);
    }
  }

  lemma RunOne(cfg: Config, log: Log)
    requires Run(cfg, log) && log.Did?
    ensures Run(cfg, log.earlier) && Step(cfg, Now(log.earlier), log.op, log.after) && Good(cfg, Now(log.earlier))
  {
    AlwaysGood(cfg, log.earlier);
  }

  lemma FetchedNow(cfg: Config, from: Log, x: Row, leaseId: string, ms: nat)
    requires Run(cfg, from) && from.Did? && from.op.Take? && from.op.lease == Some((leaseId, ms))
    requires x in Now(from.earlier).rows && !Announces(x.envelope)
    requires GoesOut(cfg, Now(from.earlier), x, from.op.m, from.op.limit, from.op.now)
    ensures x.(lease := Some(Lease(leaseId, from.op.now + ms))) in Now(from).rows
  {
    hide Good, TakeResult;
    RunOne(cfg, from);
    var t := Now(from.earlier);
    RowsAfterFetch(cfg, t, from.op.m, from.op.limit, from.op.lease, from.op.now);
    assert Becomes(cfg, t, from.op.m, from.op.limit, from.op.lease, from.op.now, x, x.(lease := Some(Lease(leaseId, from.op.now + ms))));
  }

  lemma FetchedMailbox(cfg: Config, from: Log, x: Row)
    requires from.Did? && from.op.Take? && GoesOut(cfg, Now(from.earlier), x, from.op.m, from.op.limit, from.op.now)
    ensures x.mailbox == from.op.m
  {
  }

  // No operation before the deadline takes out a fresh leased row, but an
  // acknowledgement of its lease or reopening.
  lemma LeasedStaysOne(cfg: Config, t: Table, op: Op, t': Table, y: Row)
    requires Good(cfg, t) && Step(cfg, t, op, t') && y in t.rows && y.lease.Some?
    requires !op.Restart? && !(op.Ack? && op.m == y.mailbox && op.leaseId == y.lease.value.id)
    requires op.Store? || op.Take? || op.Stats? ==> Clock(op, 0) < y.lease.value.until && InTime(cfg, y, Clock(op, 0))
    ensures y in t'.rows
  {
    hide Good, StoreStep, TakeResult, AckResult, Live;
    match op
    case Store(q, throttled, out) => StoredRows(cfg, t, q, throttled, out, t');
    case Take(m, limit, lease, now) =>
      RowsAfterFetch(cfg, t, m, limit, lease, now);
      assert Becomes(cfg, t, m, limit, lease, now, y, y);
    case Ack(m, leaseId) => AckExactly(t, m, leaseId);
    case Stats(now) =>
      GoodIds(cfg, t);
      LiveRows(cfg, t.rows, now);
  }

  // A row fetched under a lease and not acknowledged is handed out again by the
  // first operation from the deadline on that reads the clock, if that is a
  // fetch of its mailbox with room and the row is still fresh.
  lemma HandedAgain(cfg: Config, from: Log, log: Log, x: Row, leaseId: string, ms: nat)
    requires Run(cfg, log) && log.Did? && from.Did? && from.op.Take? && from.op.lease == Some((leaseId, ms))
    requires Unacknowledged(log.earlier, from, from.op.m, leaseId, from.op.now + ms)
    requires x in Now(from.earlier).rows && !Announces(x.envelope)
    requires GoesOut(cfg, Now(from.earlier), x, from.op.m, from.op.limit, from.op.now)
    requires log.op.Take? && log.op.m == x.mailbox && log.op.now >= from.op.now + ms && x.at + cfg.ttl >= log.op.now
    requires Count(Now(log.earlier).rows, Below(Waiting(cfg, x.mailbox, log.op.now), x.id)) < log.op.limit
    ensures x.(lease := None) in HandedBy(cfg, log)
  {
    hide Good, Step, Run, GoesOut, TakeResult, Unacknowledged;
    RunOne(cfg, log);
    StaysLeased(cfg, from, log.earlier, x, leaseId, ms);
    var y := x.(lease := Some(Lease(leaseId, from.op.now + ms)));
    HandedExactly(cfg, Now(log.earlier), log.op.m, log.op.limit, log.op.lease, log.op.now);
    GoesOutNow(cfg, Now(log.earlier), y, log.op.m, log.op.limit, log.op.now);
    assert y.(lease := None) == x.(lease := None);
  }

  lemma GoesOutNow(cfg: Config, t: Table, y: Row, m: string, limit: nat, now: nat)
    requires Waits(cfg, y, m, now) && Count(t.rows, Below(Waiting(cfg, m, now), y.id)) < limit
    ensures GoesOut(cfg, t, y, m, limit, now)
  {
  }
}
