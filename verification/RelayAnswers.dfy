// What each operation of the relay answers and does to each row, said of the
// rows' own fields.
module RelayAnswers {
  import opened Options
  import opened RelayTable
  import opened RelayStore
  import opened RelayQueue
  import opened RelayRuns

  predicate Announces(e: Envelope) { e.kind == Some("pairing_announcement") }

  predicate InTime(cfg: Config, r: Row, now: nat) { r.at + cfg.ttl >= now }

  predicate MailboxName(m: string) {
    1 <= |m| <= 160 &&
    forall c :: c in m ==> 'a' <= c <= 'z' || 'A' <= c <= 'Z' || '0' <= c <= '9' || c == '-' || c == '_' || c == '.' || c == ':'
  }

  // ---- Measures of described rows ------------------------------------------------

  lemma {:induction false} SameMeasure(rows: seq<Row>, a: Selector, b: Selector)
    requires forall r :: r in rows ==> (a(r) <==> b(r))
    ensures Count(rows, a) == Count(rows, b) && Bytes(rows, a) == Bytes(rows, b)
  {
    if rows != [] {
      assert rows == rows[..|rows| - 1] + [rows[|rows| - 1]];
      SameMeasure(rows[..|rows| - 1], a, b);
    }
  }

  lemma {:induction false} SmallerSelection(rows: seq<Row>, a: Selector, b: Selector)
    requires forall r :: r in rows && a(r) ==> b(r)
    ensures Count(rows, a) <= Count(rows, b) && Bytes(rows, a) <= Bytes(rows, b)
  {
    if rows != [] {
      assert rows == rows[..|rows| - 1] + [rows[|rows| - 1]];
      SmallerSelection(rows[..|rows| - 1], a, b);
    }
  }

  // Measuring what is left measures the rows that are left.
  lemma {:induction false} MeasureLeft(rows: seq<Row>, gone: Selector, s: Selector, both: Selector)
    requires forall r :: r in rows ==> (both(r) <==> s(r) && !gone(r))
    ensures Count(Without(rows, gone), s) == Count(rows, both) && Bytes(Without(rows, gone), s) == Bytes(rows, both)
  {
    if rows == [] { return; }
    hide Count, Bytes, Without;
    var n := |rows| - 1;
    assert rows == rows[..n] + [rows[n]];
    MeasureLeft(rows[..n], gone, s, both);
    OneMoreLeft(rows[..n], rows[n], gone, s, both);
  }

  lemma OneMoreLeft(head: seq<Row>, last: Row, gone: Selector, s: Selector, both: Selector)
    requires both(last) <==> s(last) && !gone(last)
    requires Count(Without(head, gone), s) == Count(head, both) && Bytes(Without(head, gone), s) == Bytes(head, both)
    ensures Count(Without(head + [last], gone), s) == Count(head + [last], both)
    ensures Bytes(Without(head + [last], gone), s) == Bytes(head + [last], both)
  {
    hide Count, Bytes, Without;
    FilterAppend(head, last, gone);
    AppendOne(Without(head, gone), last, s);
    AppendOne(head, last, both);
  }

  lemma {:induction false} MeasureSelected(rows: seq<Row>, a: Selector, s: Selector, both: Selector)
    requires forall r :: r in rows ==> (both(r) <==> s(r) && a(r))
    ensures Count(Select(rows, a), s) == Count(rows, both)
  {
    if rows == [] { return; }
    hide Count, Bytes, Select;
    var n := |rows| - 1;
    assert rows == rows[..n] + [rows[n]];
    MeasureSelected(rows[..n], a, s, both);
    FilterAppend(rows[..n], rows[n], a);
    AppendOne(Select(rows[..n], a), rows[n], s);
    AppendOne(rows[..n], rows[n], both);
  }

  // Rows changed one by one count as the rows they come from.
  lemma {:induction false} CountPaired(a: seq<Row>, b: seq<Row>, s: Selector, u: Selector)
    requires |a| == |b| && forall i :: 0 <= i < |a| ==> (s(a[i]) <==> u(b[i]))
    ensures Count(a, s) == Count(b, u)
  {
    if a != [] { CountPaired(a[..|a| - 1], b[..|b| - 1], s, u); }
  }

  function Below(s: Selector, id: nat): Selector { (r: Row) => s(r) && r.id < id }
  function Above(s: Selector, id: nat): Selector { (r: Row) => s(r) && r.id > id }

  // In id order a row's place is how many come before it.
  lemma {:induction false} PlaceIs(rows: seq<Row>, i: nat, s: Selector)
    requires Sorted(rows) && i < |rows| && forall r :: r in rows ==> s(r)
    ensures Count(rows, Below(s, rows[i].id)) == i && Count(rows, Above(s, rows[i].id)) == |rows| - 1 - i
  {
    var n := |rows| - 1;
    SplitLast(rows);
    if i < n {
      PlaceIs(rows[..n], i, s);
    } else {
      CountBelowAll(rows[..n], rows[n].id, s);
    }
  }

  lemma {:induction false} CountBelowAll(rows: seq<Row>, id: nat, s: Selector)
    requires forall r :: r in rows ==> s(r) && r.id < id
    ensures Count(rows, Below(s, id)) == |rows| && Count(rows, Above(s, id)) == 0
  {
    if rows != [] {
      assert rows == rows[..|rows| - 1] + [rows[|rows| - 1]];
      CountBelowAll(rows[..|rows| - 1], id, s);
    }
  }

  lemma LiveRows(cfg: Config, rows: seq<Row>, now: nat)
    requires Sorted(rows)
    ensures Sorted(Live(cfg, rows, now))
    ensures forall r :: r in Live(cfg, rows, now) <==> r in rows && InTime(cfg, r, now)
    ensures forall r :: r in rows ==> (Expired(Cutoff(cfg, now))(r) <==> !InTime(cfg, r, now))
  {
    hide Without, Sorted;
    InWithout(rows, Expired(Cutoff(cfg, now)));
    WithoutSorted(rows, Expired(Cutoff(cfg, now)));
  }

  // ---- A store: what is checked ---------------------------------------------------

  // What a store must pass before its transaction.
  predicate Passes(cfg: Config, q: StoreRequest, throttled: bool) {
    MailboxName(q.mailbox) && q.envelope.size <= cfg.maxEnvelope && (Announces(q.envelope) || !throttled)
  }

  // The mailbox holds, still fresh, a message of the same id.
  ghost predicate SameMessageWaits(cfg: Config, t: Table, q: StoreRequest) {
    exists r :: r in t.rows && InTime(cfg, r, q.now) && r.mailbox == q.mailbox &&
      r.envelope.messageId == q.envelope.messageId && r.envelope.messageId.Some? && 1 <= |r.envelope.messageId.value| <= 256
  }

  lemma NamesAgree(m: string)
    ensures ValidMailbox(m) <==> MailboxName(m)
  {
    if ValidMailbox(m) {
      forall c | c in m ensures 'a' <= c <= 'z' || 'A' <= c <= 'Z' || '0' <= c <= '9' || c == '-' || c == '_' || c == '.' || c == ':' {
        var i :| 0 <= i < |m| && m[i] == c;
      }
    }
    assert forall i :: 0 <= i < |m| ==> m[i] in m;
  }

  lemma DuplicateIs(cfg: Config, t: Table, q: StoreRequest)
    requires Sorted(t.rows)
    ensures IsDuplicate(Live(cfg, t.rows, q.now), q) <==> SameMessageWaits(cfg, t, q)
  {
    hide Count, Sorted, Live;
    var live := Live(cfg, t.rows, q.now);
    LiveRows(cfg, t.rows, q.now);
    if q.envelope.DedupKey().Some? {
      var s := Keyed(q.mailbox, q.envelope.DedupKey().value);
      CountZero(live, s);
      if IsDuplicate(live, q) {
        var r :| r in live && s(r);
        assert r in t.rows;
      }
      if SameMessageWaits(cfg, t, q) {
        var r :| r in t.rows && InTime(cfg, r, q.now) && r.mailbox == q.mailbox && r.envelope.messageId == q.envelope.messageId;
        assert r in live && s(r);
      }
    }
  }

  // Which check answers, exactly; a duplicate is the only store that changes
  // nothing but to drop what has expired.
  lemma StoreChecks(cfg: Config, t: Table, q: StoreRequest, throttled: bool, out: StoreResult, t': Table)
    requires Good(cfg, t) && StoreStep(cfg, t, q, throttled, out, t')
    ensures out == Refused(BadMailbox) <==> !MailboxName(q.mailbox)
    ensures out == Refused(TooLarge) <==> MailboxName(q.mailbox) && q.envelope.size > cfg.maxEnvelope
    ensures out == Refused(Throttled) <==>
              MailboxName(q.mailbox) && q.envelope.size <= cfg.maxEnvelope && !Announces(q.envelope) && throttled
    ensures out.Duplicate? <==> Passes(cfg, q, throttled) && SameMessageWaits(cfg, t, q)
    ensures out.Duplicate? ==> forall r :: r in t'.rows <==> r in t.rows && InTime(cfg, r, q.now)
    ensures out.Refused? ==> t' == t
  {
    hide Good, Live, IsDuplicate, MailboxName, ValidMailbox, Select, Without, Bytes, Count, Cleared, Victims, AfterVictims,
      MailboxFits, NotSooner, RoomMade, SourceOver, TotalFits;
    NamesAgree(q.mailbox);
    GoodIds(cfg, t);
    DuplicateIs(cfg, t, q);
    LiveRows(cfg, t.rows, q.now);
  }

  // ---- A store: what makes room ------------------------------------------------------

  predicate SameSender(q: StoreRequest, r: Row) { q.envelope.sender.Some? && r.envelope.sender == q.envelope.sender }

  // Fresh announcements in the mailbox, of others than the sender.
  function OthersAnnounced(cfg: Config, q: StoreRequest): Selector {
    (r: Row) => InTime(cfg, r, q.now) && r.mailbox == q.mailbox && Announces(r.envelope) && !SameSender(q, r)
  }

  // An announcement takes the place of its sender's, and of all but the newest
  // seven of others.
  ghost predicate GivesWay(cfg: Config, t: Table, q: StoreRequest, r: Row) {
    && Announces(q.envelope) && Announces(r.envelope) && r.mailbox == q.mailbox
    && (SameSender(q, r) || Count(t.rows, Above(OthersAnnounced(cfg, q), r.id)) >= 7)
  }

  ghost predicate ClearedFor(cfg: Config, t: Table, q: StoreRequest, cleared: seq<Row>) {
    Sorted(cleared) && forall r :: r in cleared <==> r in t.rows && InTime(cfg, r, q.now) && !GivesWay(cfg, t, q, r)
  }

  lemma ClearedIs(cfg: Config, t: Table, q: StoreRequest)
    requires Good(cfg, t)
    ensures ClearedFor(cfg, t, q, Cleared(Live(cfg, t.rows, q.now), q))
  {
    hide Good, Select, Without, Count, Bytes, Sorted, Live, PairingExcess, SameSender;
    var live := Live(cfg, t.rows, q.now);
    GoodIds(cfg, t);
    LiveRows(cfg, t.rows, q.now);
    ClearedShrinks(live, q);
    if Announces(q.envelope) {
      var others := Others(live, q);
      OthersRows(live, q);
      var excess := PairingExcess(others, q.mailbox);
      InWithout(others, AnyOf(Ids(excess)));
      forall r | r in others ensures r.id in Ids(excess) <==> GivesWay(cfg, t, q, r) {
        if r.mailbox == q.mailbox && Announces(r.envelope) {
          ExcessIs(cfg, t, q, r);
        } else {
          NotExcess(others, q.mailbox, r);
        }
      }
    }
  }

  function Others(live: seq<Row>, q: StoreRequest): seq<Row> {
    if q.envelope.sender.Some? then Without(live, PairingFrom(q.mailbox, q.envelope.sender.value)) else live
  }

  lemma OthersRows(live: seq<Row>, q: StoreRequest)
    requires Sorted(live)
    ensures Sorted(Others(live, q))
    ensures forall r :: r in Others(live, q) <==> r in live && !(r.mailbox == q.mailbox && Announces(r.envelope) && SameSender(q, r))
  {
    hide Without, Sorted;
    if q.envelope.sender.Some? {
      InWithout(live, PairingFrom(q.mailbox, q.envelope.sender.value));
      WithoutSorted(live, PairingFrom(q.mailbox, q.envelope.sender.value));
    }
  }

  lemma NotExcess(others: seq<Row>, m: string, r: Row)
    requires Sorted(others) && r in others && !(r.mailbox == m && Announces(r.envelope))
    ensures r.id !in Ids(PairingExcess(others, m))
  {
    hide Select, Sorted;
    InSelect(others, Pairing(m));
    if r.id in Ids(PairingExcess(others, m)) {
      var v :| v in PairingExcess(others, m) && v.id == r.id;
      assert v in Select(others, Pairing(m));
      SameId(others, v, r);
    }
  }

  // Of the announcements of others, exactly those with seven newer ones go.
  lemma ExcessIs(cfg: Config, t: Table, q: StoreRequest, r: Row)
    requires Good(cfg, t) && r in Others(Live(cfg, t.rows, q.now), q) && r.mailbox == q.mailbox && Announces(r.envelope)
    ensures r.id in Ids(PairingExcess(Others(Live(cfg, t.rows, q.now), q), q.mailbox)) <==>
              Count(t.rows, Above(OthersAnnounced(cfg, q), r.id)) >= 7
  {
    hide Good, Select, Without, Count, Bytes, Sorted, Live, SameSender, Others;
    var live := Live(cfg, t.rows, q.now);
    var others := Others(live, q);
    GoodIds(cfg, t);
    LiveRows(cfg, t.rows, q.now);
    OthersRows(live, q);
    var p := Select(others, Pairing(q.mailbox));
    InSelect(others, Pairing(q.mailbox));
    SelectSorted(others, Pairing(q.mailbox));
    assert r in p;
    var i :| 0 <= i < |p| && p[i] == r;
    PlaceIs(p, i, Pairing(q.mailbox));
    NewerOthers(cfg, t, q, r.id);
    PrefixIds(p, i, |p| - MAX_PAIRING_PER_MAILBOX + 1);
  }

  lemma PrefixIds(p: seq<Row>, i: nat, n: int)
    requires Sorted(p) && i < |p| && n <= |p|
    ensures 0 <= n ==> (p[i].id in Ids(p[..n]) <==> i < n)
  {
    if 0 <= n && p[i].id in Ids(p[..n]) {
      var v :| v in p[..n] && v.id == p[i].id;
      var k :| 0 <= k < n && p[..n][k] == v;
    }
    if i < n && 0 <= n { assert p[..n][i] == p[i]; }
  }

  lemma NewerOthers(cfg: Config, t: Table, q: StoreRequest, id: nat)
    requires Sorted(t.rows)
    ensures var others := Others(Live(cfg, t.rows, q.now), q);
            Count(Select(others, Pairing(q.mailbox)), Above(Pairing(q.mailbox), id)) == Count(t.rows, Above(OthersAnnounced(cfg, q), id))
  {
    hide Select, Without, Count, Bytes, Sorted;
    var live := Live(cfg, t.rows, q.now);
    var others := Others(live, q);
    var newer := Above(Pairing(q.mailbox), id);
    LiveRows(cfg, t.rows, q.now);
    MeasureSelected(others, Pairing(q.mailbox), newer, newer);
    var theirs: Selector := (r: Row) => newer(r) && !SameSender(q, r);
    if q.envelope.sender.Some? {
      MeasureLeft(live, PairingFrom(q.mailbox, q.envelope.sender.value), newer, theirs);
    } else {
      SameMeasure(live, newer, theirs);
    }
    MeasureLeft(t.rows, Expired(Cutoff(cfg, q.now)), theirs, Above(OthersAnnounced(cfg, q), id));
  }

  function Here(m: string): Selector { (r: Row) => r.mailbox == m }

  predicate HasRoom(cfg: Config, rows: seq<Row>, m: string, size: nat) {
    Count(rows, Here(m)) < cfg.maxQueue && Bytes(rows, Here(m)) + size <= cfg.maxMailboxBytes
  }

  // A kind is named that is not the announcements'.
  predicate Named(r: Row) { r.envelope.kind.Some? && !Announces(r.envelope) }

  // Which of two unleased rows of a mailbox is given up first.
  predicate GoesBefore(r: Row, s: Row) { (Named(r) && !Named(s)) || (Named(r) == Named(s) && r.id < s.id) }

  // The mailbox gave up unleased rows in that order, none that was not needed,
  // until it had room or none was left.
  ghost predicate MailboxGave(cfg: Config, rows: seq<Row>, kept: seq<Row>, m: string, size: nat) {
    && SubTable(kept, rows)
    && (forall r :: r in rows && r !in kept ==> r.mailbox == m && r.lease.None?)
    && (forall r, s :: r in rows && r !in kept && s in kept && s.mailbox == m && s.lease.None? ==> GoesBefore(r, s))
    && (kept == rows || exists v :: LastGiven(cfg, rows, kept, m, size, v))
    && (HasRoom(cfg, kept, m, size) || forall s :: s in kept && s.mailbox == m ==> s.lease.Some?)
  }

  // With the last one given still there, there was no room.
  ghost predicate LastGiven(cfg: Config, rows: seq<Row>, kept: seq<Row>, m: string, size: nat, v: Row) {
    && v in rows && v !in kept && (forall r :: r in rows && r !in kept && r != v ==> GoesBefore(r, v))
    && !(Count(kept, Here(m)) + 1 < cfg.maxQueue && Bytes(kept, Here(m)) + v.envelope.size + size <= cfg.maxMailboxBytes)
  }

  lemma RoomIs(cfg: Config, rows: seq<Row>, m: string, size: nat)
    ensures MailboxFits(cfg, rows, m, size) <==> HasRoom(cfg, rows, m, size)
  {
    SameMeasure(rows, InMailbox(m), Here(m));
  }

  lemma MailboxGives(cfg: Config, rows: seq<Row>, m: string, size: nat, k: nat)
    requires Sorted(rows) && k <= |Victims(rows, m)| && NotSooner(cfg, rows, m, size, k)
    requires MailboxFits(cfg, AfterVictims(rows, m, k), m, size) || k == |Victims(rows, m)|
    ensures MailboxGave(cfg, rows, AfterVictims(rows, m, k), m, size)
  {
    hide Select, Without, Count, Bytes, Sorted, MailboxFits, HasRoom, Victims, GoesBefore, Named;
    var vs, kept := Victims(rows, m), AfterVictims(rows, m, k);
    WithoutIsSub(rows, AnyOf(Ids(vs[..k])));
    RoomIs(cfg, kept, m, size);
    GivenAre(rows, m, k);
    VictimsOrdered(rows, m);
    forall r, s | r in rows && r !in kept && s in kept && s.mailbox == m && s.lease.None? ensures GoesBefore(r, s) {
      var i :| 0 <= i < k && vs[i] == r;
      var j :| 0 <= j < |vs| && vs[j] == s;
    }
    if k > 0 {
      var v := vs[k - 1];
      assert v in vs[..k];
      forall r | r in rows && r !in kept && r != v ensures GoesBefore(r, v) {
        var i :| 0 <= i < k && vs[i] == r;
      }
      OneBefore(cfg, rows, m, size, k);
      assert LastGiven(cfg, rows, kept, m, size, v);
    } else {
      DropNone(rows, vs);
    }
    if k == |vs| {
      assert vs[..k] == vs;
    }
  }

  lemma VictimRows(rows: seq<Row>, m: string)
    requires Sorted(rows)
    ensures forall r :: r in Victims(rows, m) <==> r in rows && r.mailbox == m && r.lease.None?
  {
    hide Select, Sorted;
    InSelect(rows, UnleasedNamed(m));
    InSelect(rows, UnleasedOther(m));
    forall r | r in rows && r.mailbox == m && r.lease.None? ensures r in Victims(rows, m) {
      assert UnleasedNamed(m)(r) || UnleasedOther(m)(r);
    }
  }

  lemma GivenAre(rows: seq<Row>, m: string, k: nat)
    requires Sorted(rows) && k <= |Victims(rows, m)|
    ensures var vs, kept := Victims(rows, m), AfterVictims(rows, m, k);
            && (forall r :: r in rows && r !in kept <==> r in vs[..k])
            && (forall r :: r in vs <==> r in rows && r.mailbox == m && r.lease.None?)
  {
    hide Select, Without, Sorted, Victims;
    var vs := Victims(rows, m);
    VictimRows(rows, m);
    InWithout(rows, AnyOf(Ids(vs[..k])));
    forall r | r in rows && r.id in Ids(vs[..k]) ensures r in vs[..k] {
      var v :| v in vs[..k] && v.id == r.id;
      assert v in vs;
      SameId(rows, v, r);
    }
    forall r | r in vs[..k] ensures r in rows && r.id in Ids(vs[..k]) { assert r in vs; }
  }

  lemma VictimsOrdered(rows: seq<Row>, m: string)
    requires Sorted(rows)
    ensures forall i, j :: 0 <= i < j < |Victims(rows, m)| ==> GoesBefore(Victims(rows, m)[i], Victims(rows, m)[j])
  {
    hide Select;
    var named, other := Select(rows, UnleasedNamed(m)), Select(rows, UnleasedOther(m));
    InSelect(rows, UnleasedNamed(m));
    InSelect(rows, UnleasedOther(m));
    SelectSorted(rows, UnleasedNamed(m));
    SelectSorted(rows, UnleasedOther(m));
    forall i | 0 <= i < |named| ensures Named(named[i]) { assert named[i] in named; }
    forall i | 0 <= i < |other| ensures !Named(other[i]) { assert other[i] in other; }
  }

  lemma OneBefore(cfg: Config, rows: seq<Row>, m: string, size: nat, k: nat)
    requires Sorted(rows) && 0 < k <= |Victims(rows, m)| && NotSooner(cfg, rows, m, size, k)
    ensures var kept, v := AfterVictims(rows, m, k), Victims(rows, m)[k - 1];
            && v in rows && v !in kept
            && !(Count(kept, Here(m)) + 1 < cfg.maxQueue && Bytes(kept, Here(m)) + v.envelope.size + size <= cfg.maxMailboxBytes)
  {
    hide Select, Without, Count, Bytes, Sorted, Victims;
    var vs, before := Victims(rows, m), AfterVictims(rows, m, k - 1);
    var v := vs[k - 1];
    assert v in vs && vs[..k][k - 1] == v;
    GivenAre(rows, m, k);
    GivenAre(rows, m, k - 1);
    WithoutIsSub(rows, AnyOf(Ids(vs[..k - 1])));
    VictimsOrdered(rows, m);
    assert !GoesBefore(v, v);
    assert forall i :: 0 <= i < k - 1 ==> GoesBefore(vs[i], vs[k - 1]);
    DropNext(rows, vs, k - 1);
    RemoveOne(before, v, InMailbox(m));
    SameMeasure(AfterVictims(rows, m, k), InMailbox(m), Here(m));
  }

  // ---- A store: the whole of it ---------------------------------------------------------

  function From(source: Option<string>): Selector { (r: Row) => r.source == source }
  function Held(): Selector { (r: Row) => r.lease.Some? }
  function All(): Selector { (r: Row) => true }

  // What follows once the mailbox gave what it could.
  ghost predicate StoreEnds(cfg: Config, t: Table, q: StoreRequest, roomy: seq<Row>, out: StoreResult, t': Table) {
    var size := q.envelope.size;
    if !HasRoom(cfg, roomy, q.mailbox, size) then out == Refused(MailboxFull) && t' == t
    else if q.source.Some? && Bytes(roomy, From(q.source)) + size > cfg.maxPerSource then out == Refused(SourceFull) && t' == t
    else if Bytes(roomy, Held()) + size > cfg.maxTotal then out == Refused(RelayFull) && t' == t
    else
      && out == Stored(t.nextId)
      && exists kept ::
           && RoomMade(roomy, kept, size, cfg.maxTotal) && Bytes(kept, All()) + size <= cfg.maxTotal
           && t'.rows == kept + [Row(t.nextId, q.mailbox, q.now, q.envelope, q.source, None)]
           && t'.total == Bytes(kept, All()) + size && t'.nextId == t.nextId + 1
  }

  lemma TailEnds(cfg: Config, t: Table, q: StoreRequest, k: nat, kept: seq<Row>, out: StoreResult, t': Table)
    requires Good(cfg, t) && k <= |Victims(Cleared(Live(cfg, t.rows, q.now), q), q.mailbox)| && StoreTail(cfg, t, q, k, kept, out, t')
    ensures StoreEnds(cfg, t, q, AfterVictims(Cleared(Live(cfg, t.rows, q.now), q), q.mailbox, k), out, t')
  {
    hide Good, Select, Without, Bytes, Count, Sorted, Cleared, Live, Victims, AfterVictims, MailboxFits, HasRoom, NotSooner, RoomMade;
    var roomy := AfterVictims(Cleared(Live(cfg, t.rows, q.now), q), q.mailbox, k);
    RoomIs(cfg, roomy, q.mailbox, q.envelope.size);
    if q.source.Some? { SameMeasure(roomy, FromSource(q.source.value), From(q.source)); }
    if MailboxFits(cfg, roomy, q.mailbox, q.envelope.size) && !SourceOver(cfg, roomy, q) {
      TotalRoomExactly(roomy, kept, q.envelope.size, cfg.maxTotal);
      SameMeasure(kept, Everything(), All());
    }
  }

  // The relay's total refuses exactly when leased rows alone leave no room.
  lemma TotalRoomExactly(rows: seq<Row>, kept: seq<Row>, size: nat, max: nat)
    requires RoomMade(rows, kept, size, max) && (TotalFits(kept, size, max) || forall r :: r in kept ==> r.lease.Some?)
    ensures TotalFits(kept, size, max) <==> Bytes(rows, Held()) + size <= max
  {
    hide Bytes, Count, Sorted, OldestFirst, LastWasNeeded, Largest, LargestPaysFirst, PaidInTurn;
    SubTableMeasures(kept, rows, Held());
    SmallerSelection(kept, Held(), Everything());
    if forall r :: r in kept ==> r.lease.Some? { SameMeasure(kept, Held(), Everything()); }
  }

  // A store that passes its checks and is no duplicate, from beginning to end.
  lemma StoreInFull(cfg: Config, t: Table, q: StoreRequest, throttled: bool, out: StoreResult, t': Table)
    requires Good(cfg, t) && StoreStep(cfg, t, q, throttled, out, t')
    requires Passes(cfg, q, throttled) && !SameMessageWaits(cfg, t, q)
    ensures exists cleared, roomy ::
              ClearedFor(cfg, t, q, cleared) && MailboxGave(cfg, cleared, roomy, q.mailbox, q.envelope.size)
              && StoreEnds(cfg, t, q, roomy, out, t')
  {
    hide Good, Live, IsDuplicate, MailboxName, ValidMailbox, Select, Without, Bytes, Count, Cleared, Victims, AfterVictims,
      MailboxFits, NotSooner, RoomMade, SourceOver, TotalFits, ClearedFor, MailboxGave, StoreEnds;
    NamesAgree(q.mailbox);
    GoodIds(cfg, t);
    DuplicateIs(cfg, t, q);
    var cleared := Cleared(Live(cfg, t.rows, q.now), q);
    var k: nat, kept :| k <= |Victims(cleared, q.mailbox)| && StoreTail(cfg, t, q, k, kept, out, t');
    ClearedIs(cfg, t, q);
    ClearedSorted(cfg, t, q);
    MailboxGives(cfg, cleared, q.mailbox, q.envelope.size, k);
    TailEnds(cfg, t, q, k, kept, out, t');
  }

  lemma ClearedSorted(cfg: Config, t: Table, q: StoreRequest)
    requires ClearedFor(cfg, t, q, Cleared(Live(cfg, t.rows, q.now), q))
    ensures Sorted(Cleared(Live(cfg, t.rows, q.now), q))
  {
  }

  // ---- Who pays for room on the relay -------------------------------------------------

  function HeldFor(h: Option<string>): Selector { (r: Row) => r.lease.None? && r.source == h }

  // One turn: v, the payer's oldest unleased row, goes. The payer is the one
  // chosen to pay on, or nobody holds more unleased bytes.
  ghost predicate Turned(t: Turn, payer: Option<string>, v: Row, kept: seq<Row>) {
    && v in t.kept && v.lease.None? && v.source == payer
    && (forall r :: r in t.kept && r.lease.None? && r.source == payer ==> v.id <= r.id)
    && (forall r :: r in kept <==> r in t.kept && r != v)
    && (t.first == Some(payer) || forall r :: r in t.kept && r.lease.None? ==> Bytes(t.kept, HeldFor(r.source)) <= Bytes(t.kept, HeldFor(payer)))
  }

  lemma {:induction false} TurnsSorted(rows: seq<Row>, payers: seq<Option<string>>)
    requires Sorted(rows)
    ensures Sorted(AfterTurns(rows, payers).kept)
    decreases |payers|
  {
    if payers != [] {
      hide Sorted, Select, Without;
      var before := AfterTurns(rows, payers[..|payers| - 1]);
      TurnsSorted(rows, payers[..|payers| - 1]);
      var held := Select(before.kept, UnleasedOf(payers[|payers| - 1]));
      if held != [] { WithoutSorted(before.kept, AnyOf({held[0].id})); }
    }
  }

  lemma {:induction false} PrefixInTurn(rows: seq<Row>, payers: seq<Option<string>>, size: nat, max: nat, k: nat)
    requires InTurn(rows, payers, size, max) && k <= |payers|
    ensures InTurn(rows, payers[..k], size, max)
    decreases |payers|
  {
    if k == |payers| {
      assert payers[..k] == payers;
    } else {
      PrefixInTurn(rows, payers[..|payers| - 1], size, max, k);
      assert payers[..|payers| - 1][..k] == payers[..k];
    }
  }

  // Every turn was needed, and was its payer's to take.
  lemma TurnsExactly(rows: seq<Row>, payers: seq<Option<string>>, size: nat, max: nat, k: nat)
    requires Sorted(rows) && InTurn(rows, payers, size, max) && k < |payers|
    ensures var t, kept := AfterTurns(rows, payers[..k]), AfterTurns(rows, payers[..k + 1]).kept;
            Bytes(t.kept, All()) + size > max && exists v :: Turned(t, payers[k], v, kept)
  {
    hide Sorted, Select, Without, Bytes;
    PrefixInTurn(rows, payers, size, max, k + 1);
    assert payers[..k + 1][..k] == payers[..k];
    var t, payer := AfterTurns(rows, payers[..k]), payers[k];
    TurnsSorted(rows, payers[..k]);
    SameMeasure(t.kept, Everything(), All());
    var held := Select(t.kept, UnleasedOf(payer));
    HeldBySomeone(t.kept, payer);
    InSelect(t.kept, UnleasedOf(payer));
    assert held[0] in held;
    OldestIsFirst(t.kept, payer);
    InAfterRemove(t.kept, held[0]);
    forall r | r in t.kept ensures Bytes(t.kept, UnleasedOf(r.source)) == Bytes(t.kept, HeldFor(r.source)) {
      SameMeasure(t.kept, UnleasedOf(r.source), HeldFor(r.source));
    }
    SameMeasure(t.kept, UnleasedOf(payer), HeldFor(payer));
    assert Turned(t, payer, held[0], AfterTurns(rows, payers[..k + 1]).kept);
  }

  lemma OldestIsFirst(rows: seq<Row>, h: Option<string>)
    requires Sorted(rows) && Select(rows, UnleasedOf(h)) != []
    ensures forall r :: r in rows && r.lease.None? && r.source == h ==> Select(rows, UnleasedOf(h))[0].id <= r.id
  {
    hide Select, Sorted;
    var held := Select(rows, UnleasedOf(h));
    InSelect(rows, UnleasedOf(h));
    SelectSorted(rows, UnleasedOf(h));
    SplitFirst(held);
    forall r | r in rows && r.lease.None? && r.source == h ensures held[0].id <= r.id { assert r in held; }
  }
}
