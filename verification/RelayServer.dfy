// The relay's shared state and its operations, each one transaction under the
// database lock: the object's methods against the transactions of RelayQueue.
module RelayServer {
  import opened Options
  import opened RelayTable
  import opened RelayStore
  import opened RelayQueue
  import opened RateLimiter

  // DELETE ... WHERE, with the delete trigger run for each row.
  method DeleteWhere(rows: seq<Row>, total: nat, s: Selector) returns (kept: seq<Row>, left: nat)
    requires Sorted(rows) && total == Bytes(rows, Everything())
    ensures kept == Without(rows, s) && left == Bytes(kept, Everything())
  {
    SplitMeasures(rows, s, Everything());
    kept, left := Without(rows, s), total - Bytes(Select(rows, s), Everything());
  }

  // A pairing announcement replaces its sender's and makes room among the rest.
  method ClearPairing(live: seq<Row>, total: nat, q: StoreRequest) returns (work: seq<Row>, left: nat)
    requires Sorted(live) && PairingUnleased(live) && total == Bytes(live, Everything())
    ensures work == Cleared(live, q) && left == Bytes(work, Everything())
  {
    hide Select, Without, Bytes, Count, Sorted;
    work, left := live, total;
    if q.envelope.IsPairing() {
      if q.envelope.sender.Some? {
        WithoutIsSub(live, PairingFrom(q.mailbox, q.envelope.sender.value));
        work, left := DeleteWhere(work, left, PairingFrom(q.mailbox, q.envelope.sender.value));
      }
      SubUnleased(work, live);
      work, left := MakePairingRoom(work, left, q.mailbox);
    }
  }

  class Relay {
    const cfg: Config
    const limiter: Limiter
    var rows: seq<Row>
    var total: nat
    var nextId: nat

    function State(): Table reads this { Table(rows, total, nextId) }

    ghost predicate Valid() reads this { Good(cfg, State()) }

    constructor (cfg: Config, limiter: Limiter)
      ensures this.cfg == cfg && this.limiter == limiter
      ensures State() == Table([], 0, 1) && Valid()
    {
      this.cfg, this.limiter := cfg, limiter;
      rows, total, nextId := [], 0, 1;
    }

    // The throughput charge is outside the transaction: it stays even when
    // the store is refused later.
    method StoreFrom(q: StoreRequest) returns (out: StoreResult)
      requires Valid()
      modifies this, limiter`mailboxes
      ensures Valid()
      ensures var charge := ChargeMailbox(limiter.policy, old(limiter.mailboxes), q.mailbox, q.envelope.size, q.now);
              && StoreStep(cfg, old(State()), q, !charge.1, out, State())
              && limiter.mailboxes == if ValidMailbox(q.mailbox) && q.envelope.size <= cfg.maxEnvelope && !q.envelope.IsPairing()
                                      then charge.0 else old(limiter.mailboxes)
    {
      hide Select, Without, Bytes, Count, Sorted, Quotas, NotSooner, RoomMade;
      if !ValidMailbox(q.mailbox) { return Refused(BadMailbox); }
      if q.envelope.size > cfg.maxEnvelope { return Refused(TooLarge); }
      if !q.envelope.IsPairing() {
        var allowed := limiter.AllowMailboxBytes(q.mailbox, q.envelope.size, q.now);
        if !allowed { return Refused(Throttled); }
      }
      out := Transact(q);
    }

    // The transaction: work on a copy, and commit or drop it.
    method Transact(q: StoreRequest) returns (out: StoreResult)
      requires Valid() && ValidMailbox(q.mailbox) && q.envelope.size <= cfg.maxEnvelope
      modifies this
      ensures Valid()
      ensures StoreStep(cfg, old(State()), q, false, out, State())
    {
      hide Select, Without, Bytes, Count, Sorted, Quotas, NotSooner, RoomMade, Cleared, Victims, MailboxFits;
      ghost var was := State();
      var m, size := q.mailbox, q.envelope.size;
      var work, left := DeleteWhere(rows, total, Expired(Cutoff(cfg, q.now)));
      ghost var live := work;
      WithoutIsSub(rows, Expired(Cutoff(cfg, q.now)));
      if q.envelope.DedupKey().Some? {
        if Count(work, Keyed(m, q.envelope.DedupKey().value)) > 0 {
          StoreKeepsGood(cfg, was, q, false, Duplicate, Table(work, left, nextId));
          rows, total := work, left;
          return Duplicate;
        }
      }
      SubUnleased(work, rows);
      work, left := ClearPairing(work, left, q);
      ClearedShrinks(live, q);
      var evicted, ok;
      work, left, evicted, ok := MakeMailboxRoom(cfg, work, left, m, size);
      if !ok {
        assert StoreTail(cfg, was, q, evicted, [], Refused(MailboxFull), was);
        return Refused(MailboxFull);
      }
      if q.source.Some? && Bytes(work, FromSource(q.source.value)) + size > cfg.maxPerSource {
        assert StoreTail(cfg, was, q, evicted, [], Refused(SourceFull), was);
        return Refused(SourceFull);
      }
      StoreStages(cfg, was, q, evicted);
      work, left, ok := MakeTotalRoom(work, left, size, cfg.maxTotal);
      if !ok {
        assert StoreTail(cfg, was, q, evicted, work, Refused(RelayFull), was);
        return Refused(RelayFull);
      }
      var row := Row(nextId, m, q.now, q.envelope, q.source, None);
      out := Stored(nextId);
      ghost var now := Table(work + [row], left + size, nextId + 1);
      assert StoreTail(cfg, was, q, evicted, work, out, now);
      StoreKeepsGood(cfg, was, q, false, out, now);
      rows, total, nextId := work + [row], left + size, nextId + 1;
    }

    // lease: a fresh lease id and its length, or none for a legacy fetch,
    // which deletes what it returns.
    method TakeQueue(m: string, limit: nat, lease: Option<(string, nat)>, now: nat)
      returns (messages: seq<Envelope>, leaseOut: Option<string>)
      requires Valid()
      modifies this
      ensures Valid()
      ensures var (t, handed) := TakeResult(cfg, old(State()), m, limit, lease, now);
              && State() == t
              && |messages| == |handed| && (forall i :: 0 <= i < |handed| ==> messages[i] == handed[i].envelope)
              && leaseOut == if lease.Some? && Consumed(handed) != {} then Some(lease.value.0) else None
    {
      hide Select, Without, Bytes, Count, Sorted, Quotas, Released, LeaseTo;
      TakeKeepsGood(cfg, State(), m, limit, lease, now);
      ReadyKeepsGood(cfg, State(), now);
      var work, left := DeleteWhere(rows, total, Expired(Cutoff(cfg, now)));
      ghost var live := work;
      work := Released(work, now);
      LeasesKeepTotal(live, work);
      ghost var ready := work;
      assert ready == ReadyRows(cfg, rows, now);
      var handed := Handed(work, m, limit);
      HandedFacts(ready, m, limit);
      messages := [];
      var named := false;
      TakenNone(ready, TakeLease(lease, now));
      for i := 0 to |handed|
        invariant State() == old(State())
        invariant work == Taken(ready, handed[..i], TakeLease(lease, now))
        invariant left == Bytes(work, Everything())
        invariant messages == Envelopes(handed[..i])
        invariant named <==> Consumed(handed[..i]) != {}
      {
        var row := handed[i];
        messages := messages + [row.envelope];
        TakenNext(ready, handed, i, TakeLease(lease, now));
        if row.envelope.IsPairing() { continue; }
        named := true;
        if lease.Some? {
          work := LeaseTo(work, {row.id}, Lease(lease.value.0, now + lease.value.1));
        } else {
          work, left := Without(work, AnyOf({row.id})), left - row.envelope.size;
        }
      }
      assert handed[..|handed|] == handed;
      assert work == Taken(ready, handed, TakeLease(lease, now));
      leaseOut := if lease.Some? && named then Some(lease.value.0) else None;
      rows, total := work, left;
    }

    method AcknowledgeLease(m: string, leaseId: string) returns (ok: bool)
      requires Valid()
      modifies this
      ensures Valid()
      ensures (State(), ok) == AckResult(old(State()), m, leaseId)
    {
      AckKeepsGood(cfg, State(), m, leaseId);
      if !ValidMailbox(m) || !ValidLeaseId(leaseId) { return false; }
      rows, total := DeleteWhere(rows, total, HeldUnder(m, leaseId));
      return true;
    }

    // Reopening the database forgets every lease.
    method Restart()
      requires Valid()
      modifies this`rows
      ensures Valid()
      ensures State() == old(State()).(rows := Unlease(old(rows)))
    {
      RestartKeepsGood(cfg, State());
      rows := Unlease(rows);
    }

    // Reading the statistics drops expired rows first.
    method Stats(now: nat) returns (mailboxes: nat, count: nat, bytes: nat, leases: nat)
      requires Valid()
      modifies this
      ensures Valid()
      ensures rows == Live(cfg, old(rows), now) && nextId == old(nextId)
      ensures forall r :: r in rows <==> r in old(rows) && r.at + cfg.ttl >= now
      ensures count == |rows| && bytes == total
      ensures mailboxes == |set r | r in rows :: r.mailbox|
      ensures leases == |set r | r in rows && r.lease.Some? && r.lease.value.until > now :: r.lease.value.id|
    {
      hide Without, Select, Bytes, Count, Quotas, Sorted;
      DeleteKeepsGood(cfg, State(), Expired(Cutoff(cfg, now)));
      DeleteIsLive(cfg, State(), now);
      InWithout(rows, Expired(Cutoff(cfg, now)));
      rows, total := DeleteWhere(rows, total, Expired(Cutoff(cfg, now)));
      count, bytes := |rows|, Bytes(rows, Everything());
      mailboxes := |set r | r in rows :: r.mailbox|;
      leases := |set r | r in rows && r.lease.Some? && r.lease.value.until > now :: r.lease.value.id|;
    }
  }

  lemma SubUnleased(kept: seq<Row>, rows: seq<Row>)
    requires (kept == rows || SubTable(kept, rows)) && PairingUnleased(rows)
    ensures PairingUnleased(kept)
  {
  }

  lemma LeasesKeepTotal(live: seq<Row>, ready: seq<Row>)
    requires SameButLeases(live, ready)
    ensures Bytes(live, Everything()) == Bytes(ready, Everything())
  {
    SameMeasures(live, ready, Everything());
  }

  lemma HandedFacts(ready: seq<Row>, m: string, limit: nat)
    requires Sorted(ready)
    ensures var handed := Handed(ready, m, limit);
            && Sorted(handed)
            && forall i :: 0 <= i < |handed| ==> handed[i] in ready && handed[i].mailbox == m && handed[i].lease.None?
  {
    SelectSorted(ready, UnleasedIn(m));
    InSelect(ready, UnleasedIn(m));
    var handed := Handed(ready, m, limit);
    forall i | 0 <= i < |handed| ensures handed[i] in Select(ready, UnleasedIn(m)) { }
  }

  lemma TakenNone(ready: seq<Row>, lease: Option<Lease>)
    requires Sorted(ready)
    ensures Taken(ready, [], lease) == ready
  {
    WithoutNone(ready, AnyOf(Consumed([])));
    match lease
    case None =>
    case Some(l) => assert LeaseTo(ready, Consumed([]), l) == ready;
  }

  lemma ConsumedNext(handed: seq<Row>, i: nat)
    requires i < |handed|
    ensures Consumed(handed[..i + 1]) == Consumed(handed[..i]) + if handed[i].envelope.IsPairing() then {} else {handed[i].id}
  {
    assert handed[..i + 1] == handed[..i] + [handed[i]];
  }

  // One more row of those handed out, leased or deleted.
  lemma TakenNext(ready: seq<Row>, handed: seq<Row>, i: nat, lease: Option<Lease>)
    requires Sorted(ready) && Sorted(handed) && i < |handed| && handed[i] in ready
    ensures var before, after, r := Taken(ready, handed[..i], lease), Taken(ready, handed[..i + 1], lease), handed[i];
            if r.envelope.IsPairing() then after == before
            else match lease
              case Some(l) => after == LeaseTo(before, {r.id}, l) && Bytes(after, Everything()) == Bytes(before, Everything())
              case None => after == Without(before, AnyOf({r.id})) &&
                           Bytes(after, Everything()) == Bytes(before, Everything()) - r.envelope.size
    ensures Envelopes(handed[..i + 1]) == Envelopes(handed[..i]) + [handed[i].envelope]
    ensures handed[i].envelope.IsPairing() ==> Consumed(handed[..i + 1]) == Consumed(handed[..i])
    ensures !handed[i].envelope.IsPairing() ==> handed[i].id in Consumed(handed[..i + 1])
  {
    hide Without, Bytes;
    ConsumedNext(handed, i);
    var ids, r := Consumed(handed[..i]), handed[i];
    if r.envelope.IsPairing() {
      assert Consumed(handed[..i + 1]) == ids;
    } else {
      match lease
      case Some(l) =>
        assert LeaseTo(LeaseTo(ready, ids, l), {r.id}, l) == LeaseTo(ready, ids + {r.id}, l);
        LeasesKeepTotal(LeaseTo(ready, ids, l), LeaseTo(ready, ids + {r.id}, l));
      case None =>
        WithoutTwice(ready, ids, {r.id});
        InWithout(ready, AnyOf(ids));
        WithoutIsSub(ready, AnyOf(ids));
        assert r.id !in ids;
        RemoveOne(Without(ready, AnyOf(ids)), r, Everything());
    }
  }
}
