// The relay's queue: the table with its running total, each operation as a
// transaction on it, and the quotas every operation keeps.
module RelayQueue {
  import opened Options
  import opened RelayTable
  import opened RelayStore

  // total is stored_total.bytes, kept by the insert and delete triggers.
  datatype Table = Table(rows: seq<Row>, total: nat, nextId: nat)

  ghost predicate Consistent(t: Table) {
    && Sorted(t.rows)
    && (forall r :: r in t.rows ==> r.id < t.nextId)
    && t.total == Bytes(t.rows, Everything())
    && PairingUnleased(t.rows)
  }

  ghost predicate Quotas(cfg: Config, rows: seq<Row>) {
    && (forall m :: Count(rows, InMailbox(m)) <= cfg.maxQueue)
    && (forall m :: Bytes(rows, InMailbox(m)) <= cfg.maxMailboxBytes)
    && (forall m :: Count(rows, Pairing(m)) <= MAX_PAIRING_PER_MAILBOX)
    && (forall m, d :: Count(rows, PairingFrom(m, d)) <= 1)
    && (forall m, k :: Count(rows, Keyed(m, k)) <= 1)
    && (forall o :: Bytes(rows, FromSource(o)) <= cfg.maxPerSource)
    && Bytes(rows, Everything()) <= cfg.maxTotal
  }

  ghost predicate Good(cfg: Config, t: Table) { Consistent(t) && Quotas(cfg, t.rows) }

  // ---- Storing -------------------------------------------------------------

  datatype Refusal = BadMailbox | TooLarge | Throttled | MailboxFull | SourceFull | RelayFull
  datatype StoreResult = Stored(id: nat) | Duplicate | Refused(why: Refusal)

  // source: the sender's address group, if any.
  datatype StoreRequest = StoreRequest(source: Option<string>, mailbox: string, envelope: Envelope, now: nat)

  predicate ValidMailbox(m: string) {
    1 <= |m| <= 160 &&
    forall i :: 0 <= i < |m| ==> 'a' <= m[i] <= 'z' || 'A' <= m[i] <= 'Z' || '0' <= m[i] <= '9' || m[i] in "-_.:"
  }

  predicate IsDuplicate(rows: seq<Row>, q: StoreRequest) {
    q.envelope.DedupKey().Some? && Count(rows, Keyed(q.mailbox, q.envelope.DedupKey().value)) > 0
  }

  // The live rows once an announcement has replaced its sender's earlier one
  // and made itself one of at most eight.
  function Cleared(live: seq<Row>, q: StoreRequest): seq<Row> {
    if !q.envelope.IsPairing() then live
    else
      var others := if q.envelope.sender.Some? then Without(live, PairingFrom(q.mailbox, q.envelope.sender.value)) else live;
      Without(others, AnyOf(Ids(PairingExcess(others, q.mailbox))))
  }

  function NewRow(t: Table, q: StoreRequest): Row { Row(t.nextId, q.mailbox, q.now, q.envelope, q.source, None) }

  predicate SourceOver(cfg: Config, rows: seq<Row>, q: StoreRequest) {
    q.source.Some? && Bytes(rows, FromSource(q.source.value)) + q.envelope.size > cfg.maxPerSource
  }

  // From the mailbox loop on: k victims of the mailbox gone, then [kept].
  ghost predicate StoreTail(cfg: Config, t: Table, q: StoreRequest, k: nat, kept: seq<Row>, out: StoreResult, t': Table)
    requires k <= |Victims(Cleared(Live(cfg, t.rows, q.now), q), q.mailbox)|
  {
    var cleared := Cleared(Live(cfg, t.rows, q.now), q);
    var roomy := AfterVictims(cleared, q.mailbox, k);
    && NotSooner(cfg, cleared, q.mailbox, q.envelope.size, k)
    && if !MailboxFits(cfg, roomy, q.mailbox, q.envelope.size) then
         k == |Victims(cleared, q.mailbox)| && out == Refused(MailboxFull) && t' == t
       else if SourceOver(cfg, roomy, q) then out == Refused(SourceFull) && t' == t
       else
         && RoomMade(roomy, kept, q.envelope.size, cfg.maxTotal)
         && if !TotalFits(kept, q.envelope.size, cfg.maxTotal) then
              (forall r :: r in kept ==> r.lease.Some?) && out == Refused(RelayFull) && t' == t
            else
              && out == Stored(t.nextId)
              && t' == Table(kept + [NewRow(t, q)], Bytes(kept, Everything()) + q.envelope.size, t.nextId + 1)
  }

  // One store as a transaction: whatever refuses it leaves the table as it
  // was, expired rows included.
  ghost predicate StoreStep(cfg: Config, t: Table, q: StoreRequest, throttled: bool, out: StoreResult, t': Table) {
    var live := Live(cfg, t.rows, q.now);
    if !ValidMailbox(q.mailbox) then out == Refused(BadMailbox) && t' == t
    else if q.envelope.size > cfg.maxEnvelope then out == Refused(TooLarge) && t' == t
    else if !q.envelope.IsPairing() && throttled then out == Refused(Throttled) && t' == t
    else if IsDuplicate(live, q) then
      out == Duplicate && t' == Table(live, Bytes(live, Everything()), t.nextId)
    else exists k: nat, kept :: k <= |Victims(Cleared(live, q), q.mailbox)| && StoreTail(cfg, t, q, k, kept, out, t')
  }

  // ---- Taking, acknowledging, restarting ------------------------------------

  function Release(r: Row, now: nat): Row {
    if r.lease.Some? && r.lease.value.until <= now then r.(lease := None) else r
  }

  function Released(rows: seq<Row>, now: nat): seq<Row> {
    seq(|rows|, i requires 0 <= i < |rows| => Release(rows[i], now))
  }

  function LeaseRow(r: Row, ids: set<nat>, lease: Lease): Row { if r.id in ids then r.(lease := Some(lease)) else r }

  function LeaseTo(rows: seq<Row>, ids: set<nat>, lease: Lease): seq<Row> {
    seq(|rows|, i requires 0 <= i < |rows| => LeaseRow(rows[i], ids, lease))
  }

  function Unlease(rows: seq<Row>): seq<Row> {
    seq(|rows|, i requires 0 <= i < |rows| => rows[i].(lease := None))
  }

  // What a fetch chooses from: expired rows and lapsed leases are gone.
  function ReadyRows(cfg: Config, rows: seq<Row>, now: nat): seq<Row> { Released(Live(cfg, rows, now), now) }

  function FirstOf(rows: seq<Row>, limit: nat): seq<Row> { if |rows| <= limit then rows else rows[..limit] }

  function Handed(ready: seq<Row>, m: string, limit: nat): seq<Row> { FirstOf(Select(ready, UnleasedIn(m)), limit) }

  // Announcements are handed out but neither leased nor deleted.
  function Consumed(handed: seq<Row>): set<nat> { set r | r in handed && !r.envelope.IsPairing() :: r.id }

  function Taken(ready: seq<Row>, handed: seq<Row>, lease: Option<Lease>): seq<Row> {
    match lease
    case None => Without(ready, AnyOf(Consumed(handed)))
    case Some(l) => LeaseTo(ready, Consumed(handed), l)
  }

  function TakeLease(lease: Option<(string, nat)>, now: nat): Option<Lease> {
    match lease
    case None => None
    case Some((id, ms)) => Some(Lease(id, now + ms))
  }

  function TakeResult(cfg: Config, t: Table, m: string, limit: nat, lease: Option<(string, nat)>, now: nat): (Table, seq<Row>) {
    var ready := ReadyRows(cfg, t.rows, now);
    var handed := Handed(ready, m, limit);
    var rows := Taken(ready, handed, TakeLease(lease, now));
    (Table(rows, Bytes(rows, Everything()), t.nextId), handed)
  }

  function Envelopes(rows: seq<Row>): seq<Envelope> {
    seq(|rows|, i requires 0 <= i < |rows| => rows[i].envelope)
  }

  predicate ValidLeaseId(id: string) { 16 <= |id| <= 128 }

  function AckResult(t: Table, m: string, leaseId: string): (Table, bool) {
    if !ValidMailbox(m) || !ValidLeaseId(leaseId) then (t, false)
    else
      var rows := Without(t.rows, HeldUnder(m, leaseId));
      (Table(rows, Bytes(rows, Everything()), t.nextId), true)
  }

  // ---- Changing leases only --------------------------------------------------

  ghost predicate SameButLeases(a: seq<Row>, b: seq<Row>) {
    |a| == |b| && forall i :: 0 <= i < |a| ==> b[i] == a[i].(lease := b[i].lease)
  }

  ghost predicate LeaseBlind(s: Selector) {
    forall r: Row, l :: s(r.(lease := l)) == s(r)
  }

  lemma {:induction false} SameMeasures(a: seq<Row>, b: seq<Row>, s: Selector)
    requires SameButLeases(a, b) && LeaseBlind(s)
    ensures Count(a, s) == Count(b, s) && Bytes(a, s) == Bytes(b, s)
  {
    if a != [] {
      var n := |a| - 1;
      assert b[n] == a[n].(lease := b[n].lease);
      SameMeasures(a[..n], b[..n], s);
    }
  }

  lemma SameButLeasesIn(a: seq<Row>, b: seq<Row>)
    requires SameButLeases(a, b)
    ensures forall r :: r in b ==> exists q :: q in a && r == q.(lease := r.lease)
    ensures forall q :: q in a ==> exists r :: r in b && r == q.(lease := r.lease)
    ensures Sorted(a) ==> Sorted(b)
  {
    forall r | r in b ensures exists q :: q in a && r == q.(lease := r.lease) {
      var i :| 0 <= i < |b| && b[i] == r;
      assert a[i] in a;
    }
    forall q | q in a ensures exists r :: r in b && r == q.(lease := r.lease) {
      var i :| 0 <= i < |a| && a[i] == q;
      assert b[i] in b;
    }
  }

  // ---- Quotas under deletion, lease changes and insertion ----------------------

  lemma SubKeepsQuotas(cfg: Config, kept: seq<Row>, rows: seq<Row>)
    requires SubTable(kept, rows) && Quotas(cfg, rows)
    ensures Quotas(cfg, kept)
  {
    hide Count, Bytes;
    forall m ensures Count(kept, InMailbox(m)) <= cfg.maxQueue && Bytes(kept, InMailbox(m)) <= cfg.maxMailboxBytes {
      SubTableMeasures(kept, rows, InMailbox(m));
    }
    forall m ensures Count(kept, Pairing(m)) <= MAX_PAIRING_PER_MAILBOX { SubTableMeasures(kept, rows, Pairing(m)); }
    forall m, d ensures Count(kept, PairingFrom(m, d)) <= 1 { SubTableMeasures(kept, rows, PairingFrom(m, d)); }
    forall m, k ensures Count(kept, Keyed(m, k)) <= 1 { SubTableMeasures(kept, rows, Keyed(m, k)); }
    forall o ensures Bytes(kept, FromSource(o)) <= cfg.maxPerSource { SubTableMeasures(kept, rows, FromSource(o)); }
    SubTableMeasures(kept, rows, Everything());
  }

  lemma LeasesKeepQuotas(cfg: Config, a: seq<Row>, b: seq<Row>)
    requires SameButLeases(a, b) && Quotas(cfg, a)
    ensures Quotas(cfg, b) && Bytes(a, Everything()) == Bytes(b, Everything())
  {
    hide Count, Bytes;
    forall m ensures Count(b, InMailbox(m)) <= cfg.maxQueue && Bytes(b, InMailbox(m)) <= cfg.maxMailboxBytes {
      SameMeasures(a, b, InMailbox(m));
    }
    forall m ensures Count(b, Pairing(m)) <= MAX_PAIRING_PER_MAILBOX { SameMeasures(a, b, Pairing(m)); }
    forall m, d ensures Count(b, PairingFrom(m, d)) <= 1 { SameMeasures(a, b, PairingFrom(m, d)); }
    forall m, k ensures Count(b, Keyed(m, k)) <= 1 { SameMeasures(a, b, Keyed(m, k)); }
    forall o ensures Bytes(b, FromSource(o)) <= cfg.maxPerSource { SameMeasures(a, b, FromSource(o)); }
    SameMeasures(a, b, Everything());
  }

  lemma {:induction false} CountZero(rows: seq<Row>, s: Selector)
    ensures Count(rows, s) == 0 <==> forall r :: r in rows ==> !s(r)
  {
    if rows != [] {
      CountZero(rows[..|rows| - 1], s);
      assert rows == rows[..|rows| - 1] + [rows[|rows| - 1]];
    }
  }

  // A deletion set taken from a table: what is left, and its measures.
  lemma AfterDelete(t: Table, d: Selector)
    requires Consistent(t)
    ensures Consistent(Table(Without(t.rows, d), Bytes(Without(t.rows, d), Everything()), t.nextId))
    ensures SubTable(Without(t.rows, d), t.rows)
    ensures Bytes(Without(t.rows, d), Everything()) == t.total - Bytes(Select(t.rows, d), Everything())
  {
    hide Select, Without, Bytes;
    WithoutIsSub(t.rows, d);
    SplitMeasures(t.rows, d, Everything());
  }

  lemma DeleteKeepsGood(cfg: Config, t: Table, d: Selector)
    requires Good(cfg, t)
    ensures Good(cfg, Table(Without(t.rows, d), Bytes(Without(t.rows, d), Everything()), t.nextId))
  {
    hide Select, Without, Bytes, Count, Quotas;
    AfterDelete(t, d);
    SubKeepsQuotas(cfg, Without(t.rows, d), t.rows);
  }

  lemma LeaseKeepsGood(cfg: Config, t: Table, rows: seq<Row>)
    requires Good(cfg, t) && SameButLeases(t.rows, rows) && PairingUnleased(rows)
    ensures Good(cfg, Table(rows, t.total, t.nextId))
  {
    hide Bytes, Count, Quotas;
    SameButLeasesIn(t.rows, rows);
    LeasesKeepQuotas(cfg, t.rows, rows);
  }

  // ---- Every operation keeps the invariant ---------------------------------

  lemma ClearedShrinks(live: seq<Row>, q: StoreRequest)
    requires Sorted(live)
    ensures SubTable(Cleared(live, q), live)
    ensures q.envelope.IsPairing() ==> Count(Cleared(live, q), Pairing(q.mailbox)) < MAX_PAIRING_PER_MAILBOX
    ensures q.envelope.IsPairing() && q.envelope.sender.Some? ==>
              Count(Cleared(live, q), PairingFrom(q.mailbox, q.envelope.sender.value)) == 0
    ensures forall r :: r in live && r !in Cleared(live, q) ==> r.envelope.IsPairing()
  {
    hide Select, Without, Bytes, Count, Sorted;
    if q.envelope.IsPairing() {
      var others := if q.envelope.sender.Some? then Without(live, PairingFrom(q.mailbox, q.envelope.sender.value)) else live;
      if q.envelope.sender.Some? {
        WithoutIsSub(live, PairingFrom(q.mailbox, q.envelope.sender.value));
        InWithout(live, PairingFrom(q.mailbox, q.envelope.sender.value));
      }
      var excess := PairingExcess(others, q.mailbox);
      var all := Select(others, Pairing(q.mailbox));
      InSelect(others, Pairing(q.mailbox));
      WithoutIsSub(others, AnyOf(Ids(excess)));
      InWithout(others, AnyOf(Ids(excess)));
      CountIsSelect(others, Pairing(q.mailbox));
      PairingAfterOldest(others, q.mailbox, |excess|);
      assert excess == all[..|excess|];
      CountIsSelect(Cleared(live, q), Pairing(q.mailbox));
      if q.envelope.sender.Some? { CountZero(Cleared(live, q), PairingFrom(q.mailbox, q.envelope.sender.value)); }
      forall r | r in others && r.id in Ids(excess) ensures r.envelope.IsPairing() {
        var x :| x in excess && x.id == r.id;
        assert x in all;
        SameId(others, r, x);
      }
    }
  }

  // A row that a table has room for under every quota.
  ghost predicate Fits(cfg: Config, rows: seq<Row>, r: Row) {
    && MailboxFits(cfg, rows, r.mailbox, r.envelope.size)
    && (r.envelope.IsPairing() ==> Count(rows, Pairing(r.mailbox)) < MAX_PAIRING_PER_MAILBOX)
    && (r.envelope.IsPairing() && r.envelope.sender.Some? ==>
          Count(rows, PairingFrom(r.mailbox, r.envelope.sender.value)) == 0)
    && (r.envelope.DedupKey().Some? ==> Count(rows, Keyed(r.mailbox, r.envelope.DedupKey().value)) == 0)
    && (r.source.Some? ==> Bytes(rows, FromSource(r.source.value)) + r.envelope.size <= cfg.maxPerSource)
    && TotalFits(rows, r.envelope.size, cfg.maxTotal)
  }

  lemma InsertKeepsQuotas(cfg: Config, rows: seq<Row>, r: Row)
    requires Quotas(cfg, rows) && Fits(cfg, rows, r)
    ensures Quotas(cfg, rows + [r])
  {
    hide Count, Bytes;
    var after := rows + [r];
    forall m ensures Count(after, InMailbox(m)) <= cfg.maxQueue && Bytes(after, InMailbox(m)) <= cfg.maxMailboxBytes {
      AppendOne(rows, r, InMailbox(m));
    }
    forall m ensures Count(after, Pairing(m)) <= MAX_PAIRING_PER_MAILBOX { AppendOne(rows, r, Pairing(m)); }
    forall m, d ensures Count(after, PairingFrom(m, d)) <= 1 { AppendOne(rows, r, PairingFrom(m, d)); }
    forall m, k ensures Count(after, Keyed(m, k)) <= 1 { AppendOne(rows, r, Keyed(m, k)); }
    forall o ensures Bytes(after, FromSource(o)) <= cfg.maxPerSource { AppendOne(rows, r, FromSource(o)); }
    AppendOne(rows, r, Everything());
  }

  lemma InsertKeepsGood(cfg: Config, kept: seq<Row>, r: Row)
    requires Good(cfg, Table(kept, Bytes(kept, Everything()), r.id))
    requires Fits(cfg, kept, r) && r.lease.None?
    ensures Good(cfg, Table(kept + [r], Bytes(kept, Everything()) + r.envelope.size, r.id + 1))
  {
    hide Count, Bytes, Quotas, Fits, Sorted;
    InsertKeepsQuotas(cfg, kept, r);
    AppendSorted(kept, r);
    AppendOne(kept, r, Everything());
  }

  lemma MeasuresShrink(cfg: Config, kept: seq<Row>, rows: seq<Row>, q: StoreRequest)
    requires SubTable(kept, rows)
    ensures Count(kept, InMailbox(q.mailbox)) <= Count(rows, InMailbox(q.mailbox))
    ensures Bytes(kept, InMailbox(q.mailbox)) <= Bytes(rows, InMailbox(q.mailbox))
    ensures Count(kept, Pairing(q.mailbox)) <= Count(rows, Pairing(q.mailbox))
    ensures q.envelope.sender.Some? ==>
              Count(kept, PairingFrom(q.mailbox, q.envelope.sender.value)) <= Count(rows, PairingFrom(q.mailbox, q.envelope.sender.value))
    ensures q.envelope.DedupKey().Some? ==>
              Count(kept, Keyed(q.mailbox, q.envelope.DedupKey().value)) <= Count(rows, Keyed(q.mailbox, q.envelope.DedupKey().value))
    ensures q.source.Some? ==> Bytes(kept, FromSource(q.source.value)) <= Bytes(rows, FromSource(q.source.value))
  {
    hide Count, Bytes;
    SubTableMeasures(kept, rows, InMailbox(q.mailbox));
    SubTableMeasures(kept, rows, Pairing(q.mailbox));
    if q.envelope.sender.Some? { SubTableMeasures(kept, rows, PairingFrom(q.mailbox, q.envelope.sender.value)); }
    if q.envelope.DedupKey().Some? { SubTableMeasures(kept, rows, Keyed(q.mailbox, q.envelope.DedupKey().value)); }
    if q.source.Some? { SubTableMeasures(kept, rows, FromSource(q.source.value)); }
  }

  // The rows on the way from the table to what a successful store keeps.
  lemma StoreStages(cfg: Config, t: Table, q: StoreRequest, k: nat)
    requires Good(cfg, t) && k <= |Victims(Cleared(Live(cfg, t.rows, q.now), q), q.mailbox)|
    ensures var live := Live(cfg, t.rows, q.now);
            var cleared := Cleared(live, q);
            && SubTable(live, t.rows) && SubTable(cleared, live)
            && SubTable(AfterVictims(cleared, q.mailbox, k), cleared)
            && SubTable(AfterVictims(cleared, q.mailbox, k), t.rows)
  {
    hide Select, Without, Bytes, Count, Sorted, Quotas;
    var live := Live(cfg, t.rows, q.now);
    WithoutIsSub(t.rows, Expired(Cutoff(cfg, q.now)));
    ClearedShrinks(live, q);
    WithoutIsSub(Cleared(live, q), AnyOf(Ids(Victims(Cleared(live, q), q.mailbox)[..k])));
  }

  // Each check of the store still holds of the rows it finally keeps.
  lemma KeptFits(cfg: Config, t: Table, q: StoreRequest, k: nat, kept: seq<Row>)
    requires Good(cfg, t) && k <= |Victims(Cleared(Live(cfg, t.rows, q.now), q), q.mailbox)|
    requires var live := Live(cfg, t.rows, q.now);
             var roomy := AfterVictims(Cleared(live, q), q.mailbox, k);
             && !IsDuplicate(live, q)
             && MailboxFits(cfg, roomy, q.mailbox, q.envelope.size)
             && !SourceOver(cfg, roomy, q)
             && SubTable(kept, roomy)
             && TotalFits(kept, q.envelope.size, cfg.maxTotal)
    ensures Fits(cfg, kept, NewRow(t, q)) && SubTable(kept, t.rows)
  {
    hide Select, Without, Bytes, Count, Sorted, Quotas, Cleared, Live, Victims;
    var live := Live(cfg, t.rows, q.now);
    var cleared := Cleared(live, q);
    StoreStages(cfg, t, q, k);
    ClearedShrinks(live, q);
    MeasuresShrink(cfg, cleared, live, q);
    MeasuresShrink(cfg, AfterVictims(cleared, q.mailbox, k), cleared, q);
    MeasuresShrink(cfg, kept, AfterVictims(cleared, q.mailbox, k), q);
  }

  lemma SubKeepsGood(cfg: Config, t: Table, kept: seq<Row>)
    requires Good(cfg, t) && SubTable(kept, t.rows)
    ensures Good(cfg, Table(kept, Bytes(kept, Everything()), t.nextId))
  {
    hide Bytes, Count, Quotas, Sorted;
    SubKeepsQuotas(cfg, kept, t.rows);
  }

  lemma StoreTailKeepsGood(cfg: Config, t: Table, q: StoreRequest, k: nat, kept: seq<Row>, out: StoreResult, t': Table)
    requires Good(cfg, t) && k <= |Victims(Cleared(Live(cfg, t.rows, q.now), q), q.mailbox)|
    requires !IsDuplicate(Live(cfg, t.rows, q.now), q)
    requires StoreTail(cfg, t, q, k, kept, out, t')
    ensures Good(cfg, t')
  {
    hide Good, Bytes, Count, Select, Without, Sorted, Cleared, Live, Victims, AfterVictims, MailboxFits, SourceOver,
      TotalFits, NotSooner, Fits, IsDuplicate, OldestFirst, LastWasNeeded, Largest, LargestPaysFirst;
    if t' != t {
      KeptFits(cfg, t, q, k, kept);
      SubKeepsGood(cfg, t, kept);
      InsertKeepsGood(cfg, kept, NewRow(t, q));
    }
  }

  lemma StoreKeepsGood(cfg: Config, t: Table, q: StoreRequest, throttled: bool, out: StoreResult, t': Table)
    requires Good(cfg, t) && StoreStep(cfg, t, q, throttled, out, t')
    ensures Good(cfg, t')
  {
    hide Good, StoreTail, Cleared, IsDuplicate, Live, Victims;
    if t' != t && IsDuplicate(Live(cfg, t.rows, q.now), q) {
      hide Without, Bytes;
      DeleteIsLive(cfg, t, q.now);
      DeleteKeepsGood(cfg, t, Expired(Cutoff(cfg, q.now)));
    } else if t' != t {
      var k: nat, kept :| k <= |Victims(Cleared(Live(cfg, t.rows, q.now), q), q.mailbox)| && StoreTail(cfg, t, q, k, kept, out, t');
      StoreTailKeepsGood(cfg, t, q, k, kept, out, t');
    }
  }

  lemma DeleteIsLive(cfg: Config, t: Table, now: nat)
    ensures Live(cfg, t.rows, now) == Without(t.rows, Expired(Cutoff(cfg, now)))
  {
  }

  lemma ReadyKeepsGood(cfg: Config, t: Table, now: nat)
    requires Good(cfg, t)
    ensures var ready := ReadyRows(cfg, t.rows, now); Good(cfg, Table(ready, Bytes(ready, Everything()), t.nextId))
    ensures SameButLeases(Live(cfg, t.rows, now), ReadyRows(cfg, t.rows, now))
    ensures Sorted(Live(cfg, t.rows, now))
  {
    hide Without, Bytes, Count, Quotas;
    var live := Live(cfg, t.rows, now);
    DeleteKeepsGood(cfg, t, Expired(Cutoff(cfg, now)));
    var ready := ReadyRows(cfg, t.rows, now);
    forall r | r in ready && r.envelope.IsPairing() ensures r.lease.None? {
      var i :| 0 <= i < |ready| && ready[i] == r;
      assert live[i] in live;
    }
    LeaseKeepsGood(cfg, Table(live, Bytes(live, Everything()), t.nextId), ready);
    LeasesKeepQuotas(cfg, live, ready);
  }

  lemma TakeKeepsGood(cfg: Config, t: Table, m: string, limit: nat, lease: Option<(string, nat)>, now: nat)
    requires Good(cfg, t)
    ensures Good(cfg, TakeResult(cfg, t, m, limit, lease, now).0)
  {
    hide Without, Select, Bytes, Count, Quotas, Sorted, Released;
    var ready := ReadyRows(cfg, t.rows, now);
    var handed := Handed(ready, m, limit);
    ReadyKeepsGood(cfg, t, now);
    var mid := Table(ready, Bytes(ready, Everything()), t.nextId);
    match TakeLease(lease, now)
    case None => DeleteKeepsGood(cfg, mid, AnyOf(Consumed(handed)));
    case Some(l) =>
      var rows := LeaseTo(ready, Consumed(handed), l);
      LeasedUnpaired(ready, handed, m, limit, l);
      LeaseKeepsGood(cfg, mid, rows);
      LeasesKeepQuotas(cfg, ready, rows);
  }

  lemma LeasedUnpaired(ready: seq<Row>, handed: seq<Row>, m: string, limit: nat, l: Lease)
    requires Sorted(ready) && PairingUnleased(ready) && handed == Handed(ready, m, limit)
    ensures PairingUnleased(LeaseTo(ready, Consumed(handed), l))
  {
    hide Select;
    InSelect(ready, UnleasedIn(m));
    var rows := LeaseTo(ready, Consumed(handed), l);
    forall r | r in rows && r.envelope.IsPairing() ensures r.lease.None? {
      var i :| 0 <= i < |rows| && rows[i] == r;
      assert ready[i] in ready;
      if ready[i].id in Consumed(handed) {
        var x :| x in handed && !x.envelope.IsPairing() && x.id == ready[i].id;
        assert x in Select(ready, UnleasedIn(m));
        SameId(ready, x, ready[i]);
      }
    }
  }

  lemma AckKeepsGood(cfg: Config, t: Table, m: string, leaseId: string)
    requires Good(cfg, t)
    ensures Good(cfg, AckResult(t, m, leaseId).0)
  {
    hide Without, Bytes, Count, Quotas;
    DeleteKeepsGood(cfg, t, HeldUnder(m, leaseId));
  }

  lemma RestartKeepsGood(cfg: Config, t: Table)
    requires Good(cfg, t)
    ensures Good(cfg, t.(rows := Unlease(t.rows)))
  {
    hide Bytes, Count, Quotas;
    LeaseKeepsGood(cfg, t, Unlease(t.rows));
  }
}
