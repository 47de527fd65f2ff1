// When a store is refused, exactly; and how fast legacy fetches drain a
// mailbox although announcements are never consumed.
module RelayProgress {
  import opened Options
  import opened Numbers
  import opened RelayTable
  import opened RelayStore
  import opened RelayQueue
  import opened RelayRuns
  import opened RelayAnswers

  // ---- Refusals --------------------------------------------------------------

  // Deleting unleased rows leaves what is leased as it was.
  lemma LeasedStays(kept: seq<Row>, rows: seq<Row>, m: string)
    requires SubTable(kept, rows) && forall r :: r in rows && r !in kept ==> r.lease.None?
    ensures Bytes(kept, Leased()) == Bytes(rows, Leased())
    ensures Count(kept, LeasedIn(m)) == Count(rows, LeasedIn(m)) && Bytes(kept, LeasedIn(m)) == Bytes(rows, LeasedIn(m))
  {
    SubTableMeasures(kept, rows, Leased());
    SubTableMeasures(kept, rows, LeasedIn(m));
  }

  // What only leased rows of the mailbox leave room for.
  predicate LeasedLeaveRoom(cfg: Config, rows: seq<Row>, m: string, size: nat) {
    Count(rows, LeasedIn(m)) < cfg.maxQueue && Bytes(rows, LeasedIn(m)) + size <= cfg.maxMailboxBytes
  }

  lemma VictimsAreAllUnleased(rows: seq<Row>, m: string)
    requires Sorted(rows)
    ensures forall r :: r in AfterVictims(rows, m, |Victims(rows, m)|) && r.mailbox == m ==> r.lease.Some?
  {
    hide Select, Without, Sorted;
    var vs := Victims(rows, m);
    assert vs[..|vs|] == vs;
    InWithout(rows, AnyOf(Ids(vs)));
    InSelect(rows, UnleasedNamed(m));
    InSelect(rows, UnleasedOther(m));
    forall r | r in rows && r.mailbox == m && r.lease.None? ensures r.id in Ids(vs) {
      assert UnleasedNamed(m)(r) || UnleasedOther(m)(r);
      assert r in vs;
    }
  }

  // The mailbox refuses exactly when its leased rows alone leave no room.
  lemma MailboxRoomExactly(cfg: Config, t: Table, q: StoreRequest, k: nat)
    requires Good(cfg, t) && k <= |Victims(Cleared(Live(cfg, t.rows, q.now), q), q.mailbox)|
    requires var live := Live(cfg, t.rows, q.now);
             var roomy := AfterVictims(Cleared(live, q), q.mailbox, k);
             MailboxFits(cfg, roomy, q.mailbox, q.envelope.size) || k == |Victims(Cleared(live, q), q.mailbox)|
    ensures var live := Live(cfg, t.rows, q.now);
            var roomy := AfterVictims(Cleared(live, q), q.mailbox, k);
            && (MailboxFits(cfg, roomy, q.mailbox, q.envelope.size) <==> LeasedLeaveRoom(cfg, live, q.mailbox, q.envelope.size))
            && Bytes(roomy, Leased()) == Bytes(live, Leased())
  {
    hide Select, Without, Bytes, Count, Sorted, Quotas, Cleared, Victims;
    var m := q.mailbox;
    var live := Live(cfg, t.rows, q.now);
    var cleared := Cleared(live, q);
    var roomy := AfterVictims(cleared, m, k);
    StoreStages(cfg, t, q, k);
    EvictedUnleased(cfg, t, q, k);
    LeasedStays(roomy, live, m);
    SmallerSelection(roomy, LeasedIn(m), InMailbox(m));
    if k == |Victims(cleared, m)| {
      VictimsAreAllUnleased(cleared, m);
      SameMeasure(roomy, LeasedIn(m), InMailbox(m));
    }
  }

  // The victims a store takes: as few as make room, or all.
  function Needed(cfg: Config, rows: seq<Row>, m: string, size: nat, k: nat): (n: nat)
    requires k <= |Victims(rows, m)|
    ensures n <= |Victims(rows, m)|
    decreases |Victims(rows, m)| - k
  {
    if k == |Victims(rows, m)| || MailboxFits(cfg, AfterVictims(rows, m, k), m, size) then k
    else Needed(cfg, rows, m, size, k + 1)
  }

  lemma {:induction false} NeededIs(cfg: Config, rows: seq<Row>, m: string, size: nat, j: nat, k: nat)
    requires j <= k <= |Victims(rows, m)| && NotSooner(cfg, rows, m, size, k)
    requires k == |Victims(rows, m)| || MailboxFits(cfg, AfterVictims(rows, m, k), m, size)
    ensures Needed(cfg, rows, m, size, j) == k
    decreases k - j
  {
    hide Victims, AfterVictims, MailboxFits;
    if j < k { NeededIs(cfg, rows, m, size, j + 1, k); }
  }

  // The rows once the mailbox has room, or has given all it can.
  function Roomy(cfg: Config, live: seq<Row>, q: StoreRequest): seq<Row> {
    var cleared := Cleared(live, q);
    AfterVictims(cleared, q.mailbox, Needed(cfg, cleared, q.mailbox, q.envelope.size, 0))
  }

  // The fresh rows that are leased: in a mailbox, and all.
  function LeasedHere(cfg: Config, m: string, now: nat): Selector { (r: Row) => InTime(cfg, r, now) && r.mailbox == m && r.lease.Some? }
  function LeasedAnywhere(cfg: Config, now: nat): Selector { (r: Row) => InTime(cfg, r, now) && r.lease.Some? }

  lemma LeasedAre(cfg: Config, t: Table, m: string, now: nat)
    requires Sorted(t.rows)
    ensures var live := Live(cfg, t.rows, now);
            && Count(live, LeasedIn(m)) == Count(t.rows, LeasedHere(cfg, m, now))
            && Bytes(live, LeasedIn(m)) == Bytes(t.rows, LeasedHere(cfg, m, now))
            && Bytes(live, Leased()) == Bytes(t.rows, LeasedAnywhere(cfg, now))
  {
    hide Count, Bytes, Sorted, Without;
    LiveRows(cfg, t.rows, now);
    MeasureLeft(t.rows, Expired(Cutoff(cfg, now)), LeasedIn(m), LeasedHere(cfg, m, now));
    MeasureLeft(t.rows, Expired(Cutoff(cfg, now)), Leased(), LeasedAnywhere(cfg, now));
  }

  // A store that passed the checks before its transaction and is no
  // duplicate: exactly when each quota refuses it, and when none does.
  lemma RefusedExactly(cfg: Config, t: Table, q: StoreRequest, throttled: bool, out: StoreResult, t': Table)
    requires Good(cfg, t) && StoreStep(cfg, t, q, throttled, out, t')
    requires Passes(cfg, q, throttled) && !SameMessageWaits(cfg, t, q)
    ensures var here, size := LeasedHere(cfg, q.mailbox, q.now), q.envelope.size;
            var fits := Count(t.rows, here) < cfg.maxQueue && Bytes(t.rows, here) + size <= cfg.maxMailboxBytes;
            var over := q.source.Some? && Bytes(Roomy(cfg, Live(cfg, t.rows, q.now), q), From(q.source)) + size > cfg.maxPerSource;
            var full := Bytes(t.rows, LeasedAnywhere(cfg, q.now)) + size > cfg.maxTotal;
            out == if !fits then Refused(MailboxFull) else if over then Refused(SourceFull)
                   else if full then Refused(RelayFull) else Stored(t.nextId)
  {
    hide Good, Select, Without, Bytes, Count, Sorted, Quotas, Cleared, Live, Victims, AfterVictims, MailboxFits, TotalFits,
      NotSooner, RoomMade, IsDuplicate, Needed, ValidMailbox, MailboxName;
    var live := Live(cfg, t.rows, q.now);
    GoodIds(cfg, t);
    NamesAgree(q.mailbox);
    DuplicateIs(cfg, t, q);
    LeasedAre(cfg, t, q.mailbox, q.now);
    var k: nat, kept :| k <= |Victims(Cleared(live, q), q.mailbox)| && StoreTail(cfg, t, q, k, kept, out, t');
    var roomy := AfterVictims(Cleared(live, q), q.mailbox, k);
    MailboxRoomExactly(cfg, t, q, k);
    NeededIs(cfg, Cleared(live, q), q.mailbox, q.envelope.size, 0, k);
    assert Roomy(cfg, live, q) == roomy;
    if q.source.Some? { SameMeasure(roomy, FromSource(q.source.value), From(q.source)); }
    if MailboxFits(cfg, roomy, q.mailbox, q.envelope.size) && !SourceOver(cfg, roomy, q) {
      TotalRoomExactly(roomy, kept, q.envelope.size, cfg.maxTotal);
      SameMeasure(roomy, Leased(), Held());
    }
  }

  // ---- Draining a mailbox -----------------------------------------------------

  function Message(): Selector { (r: Row) => !r.envelope.IsPairing() }
  function MessageIn(m: string): Selector { (r: Row) => r.mailbox == m && !r.envelope.IsPairing() }
  function AnnouncedBefore(id: nat): Selector { (r: Row) => r.envelope.IsPairing() && r.id < id }

  function Mine(t: Table, m: string): seq<Row> { Select(t.rows, InMailbox(m)) }

  // Of one mailbox's rows: the announcements older than its newest message.
  function Ahead(mine: seq<Row>): nat {
    var all := Select(mine, Message());
    if all == [] then 0 else Count(mine, AnnouncedBefore(all[|all| - 1].id))
  }

  // Legacy fetches one after another: the messages they return, in order.
  function Drained(cfg: Config, t: Table, m: string, limit: nat, times: seq<nat>): seq<Row>
    decreases |times|
  {
    if times == [] then []
    else
      var (t', handed) := TakeResult(cfg, t, m, limit, None, times[0]);
      Select(handed, Message()) + Drained(cfg, t', m, limit, times[1..])
  }

  // The mailbox has no leases, and none of its rows runs out of time meanwhile.
  ghost predicate Quiet(cfg: Config, t: Table, m: string, times: seq<nat>) {
    && (forall r :: r in t.rows && r.mailbox == m ==> r.lease.None?)
    && (forall r, now :: r in t.rows && r.mailbox == m && now in times ==> r.at >= Cutoff(cfg, now))
  }

  lemma {:induction false} SelectConcat(a: seq<Row>, b: seq<Row>, s: Selector)
    ensures Select(a + b, s) == Select(a, s) + Select(b, s)
    ensures Count(a + b, s) == Count(a, s) + Count(b, s)
  {
    if b == [] {
      assert a + b == a;
    } else {
      var n := |b| - 1;
      assert (a + b)[..|a + b| - 1] == a + b[..n];
      SelectConcat(a, b[..n], s);
    }
  }

  function Announcement(): Selector { (r: Row) => r.envelope.IsPairing() }

  lemma {:induction false} MessagesAndAnnouncements(rows: seq<Row>)
    ensures |rows| == |Select(rows, Message())| + Count(rows, Announcement())
  {
    if rows != [] { MessagesAndAnnouncements(rows[..|rows| - 1]); }
  }

  lemma SortedParts(rows: seq<Row>, n: nat)
    requires Sorted(rows) && n <= |rows|
    ensures Sorted(rows[..n]) && Sorted(rows[n..]) && rows == rows[..n] + rows[n..]
    ensures forall a, b :: a in rows[..n] && b in rows[n..] ==> a.id < b.id
  {
  }

  // The first rows hold all the messages, or as many as the limit leaves
  // beside the announcements ahead of the newest; and all only if it leaves any.
  lemma PrefixDelivers(mine: seq<Row>, limit: nat)
    requires Sorted(mine)
    ensures var all, got := Select(mine, Message()), Select(FirstOf(mine, limit), Message());
            && |got| <= |all| && got == all[..|got|]
            && (got == all || |got| >= limit - Ahead(mine))
            && (all != [] && Ahead(mine) >= limit ==> |got| < |all|)
  {
    hide Select, Count, Sorted;
    var n := if limit < |mine| then limit else |mine|;
    var head, tail := mine[..n], mine[n..];
    SortedParts(mine, n);
    assert head == FirstOf(mine, limit);
    SelectConcat(head, tail, Message());
    MessagesAndAnnouncements(head);
    var all, got := Select(mine, Message()), Select(head, Message());
    if all != [] {
      var newest := all[|all| - 1];
      InSelect(head, Message());
      InSelect(tail, Message());
      SelectConcat(head, tail, AnnouncedBefore(newest.id));
      if got == all {
        assert newest in head;
        CountZero(tail, AnnouncedBefore(newest.id));
        SmallerSelection(head, AnnouncedBefore(newest.id), Announcement());
      } else {
        assert newest == Select(tail, Message())[|Select(tail, Message())| - 1];
        SameMeasure(head, AnnouncedBefore(newest.id), Announcement());
      }
    }
  }

  // What a legacy fetch leaves of the mailbox: the other messages, with as
  // many announcements ahead of the newest.
  lemma FetchLeaves(mine: seq<Row>, limit: nat)
    requires Sorted(mine)
    ensures var handed := FirstOf(mine, limit);
            var rest := Without(mine, AnyOf(Consumed(handed)));
            var all, got := Select(mine, Message()), Select(handed, Message());
            && Sorted(rest) && |got| <= |all| && Select(rest, Message()) == all[|got|..]
            && (|got| < |all| ==> Ahead(rest) == Ahead(mine))
  {
    hide Select, Without, Count, Sorted;
    var handed := FirstOf(mine, limit);
    var rest := Without(mine, AnyOf(Consumed(handed)));
    var all, got := Select(mine, Message()), Select(handed, Message());
    PrefixDelivers(mine, limit);
    WithoutIsSub(mine, AnyOf(Consumed(handed)));
    OnlyMessagesGo(mine, handed, got, rest);
    if |got| < |all| {
      assert all[|got|..][|all| - |got| - 1] == all[|all| - 1];
      SubTableMeasures(rest, mine, AnnouncedBefore(all[|all| - 1].id));
    }
  }

  lemma OnlyMessagesGo(mine: seq<Row>, handed: seq<Row>, got: seq<Row>, rest: seq<Row>)
    requires Sorted(mine) && (forall r :: r in handed ==> r in mine) && got == Select(handed, Message())
    requires rest == Without(mine, AnyOf(Consumed(handed)))
    requires |got| <= |Select(mine, Message())| && got == Select(mine, Message())[..|got|]
    ensures Select(rest, Message()) == Select(mine, Message())[|got|..]
    ensures forall r :: r in mine && r.envelope.IsPairing() ==> r in rest
  {
    hide Select, Without, Sorted;
    var all, left := Select(mine, Message()), Select(rest, Message());
    InWithout(mine, AnyOf(Consumed(handed)));
    InSelect(rest, Message());
    InSelect(mine, Message());
    InSelect(handed, Message());
    WithoutSorted(mine, AnyOf(Consumed(handed)));
    SelectSorted(rest, Message());
    SelectSorted(mine, Message());
    SortedSplit(all, |got|);
    forall r | r in mine ensures r.id in Consumed(handed) <==> r in handed && !r.envelope.IsPairing() {
      if r.id in Consumed(handed) {
        var x :| x in handed && !x.envelope.IsPairing() && x.id == r.id;
        SameId(mine, x, r);
      }
    }
    SameRows(left, all[|got|..]);
  }

  lemma SortedSplit(rows: seq<Row>, n: nat)
    requires Sorted(rows) && n <= |rows|
    ensures Sorted(rows[n..])
    ensures forall r :: r in rows[n..] <==> r in rows && r !in rows[..n]
  {
    assert rows == rows[..n] + rows[n..];
  }

  // Lapsed leases of other mailboxes do not matter here.
  lemma {:induction false} ReleaseKeeps(rows: seq<Row>, now: nat, s: Selector)
    requires LeaseBlind(s) && forall r :: r in rows && s(r) ==> r.lease.None?
    ensures Select(Released(rows, now), s) == Select(rows, s)
  {
    if rows != [] {
      var n := |rows| - 1;
      assert rows == rows[..n] + [rows[n]];
      ReleaseKeeps(rows[..n], now, s);
      assert Released(rows, now)[..n] == Released(rows[..n], now);
      assert Release(rows[n], now) == rows[n].(lease := Release(rows[n], now).lease);
    }
  }

  lemma QuietRows(cfg: Config, t: Table, m: string, now: nat)
    requires Good(cfg, t) && Quiet(cfg, t, m, [now])
    ensures var ready := ReadyRows(cfg, t.rows, now);
            && Sorted(ready) && Sorted(Mine(t, m)) && Select(ready, InMailbox(m)) == Mine(t, m)
            && Select(ready, UnleasedIn(m)) == Mine(t, m)
  {
    hide Select, Without, Bytes, Count, Quotas;
    var live := Live(cfg, t.rows, now);
    ReadyKeepsGood(cfg, t, now);
    WithoutIsSub(t.rows, Expired(Cutoff(cfg, now)));
    InWithout(t.rows, Expired(Cutoff(cfg, now)));
    assert now in [now];
    InSelect(live, InMailbox(m));
    InSelect(t.rows, InMailbox(m));
    SelectSorted(live, InMailbox(m));
    SelectSorted(t.rows, InMailbox(m));
    SameRows(Select(live, InMailbox(m)), Mine(t, m));
    ReleaseKeeps(live, now, InMailbox(m));
    var ready := ReadyRows(cfg, t.rows, now);
    InSelect(ready, InMailbox(m));
    forall r | r in ready ensures InMailbox(m)(r) <==> UnleasedIn(m)(r) {
      if r.mailbox == m { assert r in Select(ready, InMailbox(m)); }
    }
    SelectAgree(ready, UnleasedIn(m), InMailbox(m));
  }

  // A legacy fetch from a quiet mailbox is one from its own rows alone.
  lemma FetchStep(cfg: Config, t: Table, m: string, limit: nat, now: nat)
    requires Good(cfg, t) && Quiet(cfg, t, m, [now])
    ensures var (t', handed) := TakeResult(cfg, t, m, limit, None, now);
            && handed == FirstOf(Mine(t, m), limit)
            && Mine(t', m) == Without(Mine(t, m), AnyOf(Consumed(handed)))
            && Good(cfg, t') && Sorted(Mine(t, m))
            && (forall r :: r in t'.rows && r.mailbox == m ==> r in t.rows)
  {
    hide Good, Select, Without, Bytes, Count, Sorted, ReadyRows, Live;
    TakeKeepsGood(cfg, t, m, limit, None, now);
    QuietRows(cfg, t, m, now);
    var ready := ReadyRows(cfg, t.rows, now);
    var handed := FirstOf(Mine(t, m), limit);
    WithoutAndMailbox(ready, Consumed(handed), m);
    var t' := TakeResult(cfg, t, m, limit, None, now).0;
    InSelect(t'.rows, InMailbox(m));
    InSelect(t.rows, InMailbox(m));
    InWithout(Mine(t, m), AnyOf(Consumed(handed)));
    forall r | r in t'.rows && r.mailbox == m ensures r in t.rows { assert r in Mine(t', m); }
  }

  lemma WithoutAndMailbox(rows: seq<Row>, ids: set<nat>, m: string)
    requires Sorted(rows)
    ensures Select(Without(rows, AnyOf(ids)), InMailbox(m)) == Without(Select(rows, InMailbox(m)), AnyOf(ids))
  {
    hide Select, Without, Sorted;
    var a, b := Select(Without(rows, AnyOf(ids)), InMailbox(m)), Without(Select(rows, InMailbox(m)), AnyOf(ids));
    WithoutSorted(rows, AnyOf(ids));
    SelectSorted(rows, InMailbox(m));
    SelectSorted(Without(rows, AnyOf(ids)), InMailbox(m));
    WithoutSorted(Select(rows, InMailbox(m)), AnyOf(ids));
    InWithout(rows, AnyOf(ids));
    InSelect(rows, InMailbox(m));
    InSelect(Without(rows, AnyOf(ids)), InMailbox(m));
    InWithout(Select(rows, InMailbox(m)), AnyOf(ids));
    SameRows(a, b);
  }

  lemma StaysQuiet(cfg: Config, t: Table, m: string, limit: nat, times: seq<nat>)
    requires Good(cfg, t) && Quiet(cfg, t, m, times) && times != []
    ensures Quiet(cfg, t, m, [times[0]])
    ensures Quiet(cfg, TakeResult(cfg, t, m, limit, None, times[0]).0, m, times[1..])
  {
    hide Good, TakeResult, Cutoff;
    assert times[0] in times;
    FetchStep(cfg, t, m, limit, times[0]);
    forall x | x in times[1..] ensures x in times { }
  }

  // With fewer than limit announcements ahead of the newest message, legacy
  // fetches deliver all n messages in id order, ceil(n / (limit - ahead)) of them.
  lemma {:induction false} DrainsWithin(cfg: Config, t: Table, m: string, limit: nat, times: seq<nat>)
    requires Good(cfg, t) && Quiet(cfg, t, m, times) && Ahead(Mine(t, m)) < limit
    requires |Select(Mine(t, m), Message())| <= |times| * (limit - Ahead(Mine(t, m)))
    ensures Drained(cfg, t, m, limit, times) == Select(Mine(t, m), Message())
    decreases |times|
  {
    hide Good, Select, TakeResult, Quiet, Ahead, Mine;
    var all := Select(Mine(t, m), Message());
    if times != [] {
      var (t', handed) := TakeResult(cfg, t, m, limit, None, times[0]);
      var got := Select(handed, Message());
      StaysQuiet(cfg, t, m, limit, times);
      FetchStep(cfg, t, m, limit, times[0]);
      PrefixDelivers(Mine(t, m), limit);
      FetchLeaves(Mine(t, m), limit);
      Shared(|times|, limit - Ahead(Mine(t, m)));
      if |got| == |all| {
        NothingAhead(Mine(t', m));
        assert |all[|got|..]| == 0 <= |times[1..]| * limit;
      }
      DrainsWithin(cfg, t', m, limit, times[1..]);
      assert all == got + all[|got|..];
    }
  }

  lemma Shared(n: nat, share: nat)
    requires n > 0
    ensures n * share == (n - 1) * share + share
  {
  }

  lemma NothingAhead(mine: seq<Row>)
    requires Select(mine, Message()) == []
    ensures Ahead(mine) == 0
  {
  }

  // With limit announcements or more ahead of it, the newest message is never
  // delivered, by however many fetches.
  lemma {:induction false} NeverDrains(cfg: Config, t: Table, m: string, limit: nat, times: seq<nat>)
    requires Good(cfg, t) && Quiet(cfg, t, m, times) && Ahead(Mine(t, m)) >= limit && Select(Mine(t, m), Message()) != []
    ensures |Drained(cfg, t, m, limit, times)| < |Select(Mine(t, m), Message())|
    decreases |times|
  {
    hide Good, Select, TakeResult, Quiet, Ahead, Mine;
    if times != [] {
      var t' := TakeResult(cfg, t, m, limit, None, times[0]).0;
      StaysQuiet(cfg, t, m, limit, times);
      FetchStep(cfg, t, m, limit, times[0]);
      PrefixDelivers(Mine(t, m), limit);
      FetchLeaves(Mine(t, m), limit);
      NeverDrains(cfg, t', m, limit, times[1..]);
    }
  }

  lemma MineMessages(t: Table, m: string)
    requires Sorted(t.rows)
    ensures Select(Mine(t, m), Message()) == Select(t.rows, MessageIn(m))
  {
    hide Select, Sorted;
    InSelect(t.rows, InMailbox(m));
    InSelect(t.rows, MessageIn(m));
    InSelect(Mine(t, m), Message());
    SelectSorted(t.rows, InMailbox(m));
    SelectSorted(t.rows, MessageIn(m));
    SelectSorted(Mine(t, m), Message());
    SameRows(Select(Mine(t, m), Message()), Select(t.rows, MessageIn(m)));
  }

  // So enough fetches deliver everything exactly when fewer than limit
  // announcements are older than the newest message.
  lemma DrainsExactly(cfg: Config, t: Table, m: string, limit: nat, times: seq<nat>)
    requires Good(cfg, t) && Quiet(cfg, t, m, times)
    requires 0 < |Select(t.rows, MessageIn(m))| <= |times|
    ensures Drained(cfg, t, m, limit, times) == Select(t.rows, MessageIn(m)) <==> Ahead(Mine(t, m)) < limit
  {
    hide Good, Select, Quiet, Ahead, Drained, Mine;
    GoodIds(cfg, t);
    MineMessages(t, m);
    if Ahead(Mine(t, m)) < limit {
      MulOrder(1, limit - Ahead(Mine(t, m)), |times|);
      DrainsWithin(cfg, t, m, limit, times);
    } else {
      NeverDrains(cfg, t, m, limit, times);
    }
  }

  // The store keeps at most eight announcements, so a limit above that always drains.
  lemma DrainProgress(cfg: Config, t: Table, m: string, limit: nat, times: seq<nat>)
    requires Good(cfg, t) && Quiet(cfg, t, m, times) && limit > 8
    requires |Select(t.rows, MessageIn(m))| <= |times| * (limit - 8)
    ensures Drained(cfg, t, m, limit, times) == Select(t.rows, MessageIn(m))
  {
    hide Good, Select, Quiet, Ahead, Drained, Mine;
    GoodIds(cfg, t);
    MineMessages(t, m);
    AheadCapped(cfg, t, m);
    MulOrder(limit - MAX_PAIRING_PER_MAILBOX, limit - Ahead(Mine(t, m)), |times|);
    DrainsWithin(cfg, t, m, limit, times);
  }

  lemma AheadCapped(cfg: Config, t: Table, m: string)
    requires Good(cfg, t)
    ensures Ahead(Mine(t, m)) <= MAX_PAIRING_PER_MAILBOX
  {
    hide Select, Count, Bytes, Sorted;
    var mine := Mine(t, m);
    var all := Select(mine, Message());
    InSelect(t.rows, InMailbox(m));
    WithoutIsSub(t.rows, InMailbox(m));
    SubTableMeasures(mine, t.rows, Pairing(m));
    if all != [] { SmallerSelection(mine, AnnouncedBefore(all[|all| - 1].id), Pairing(m)); }
  }

  // ---- A message that is never delivered ------------------------------------------

  const ROOMY := Config(1000, 10, 100, 100, 100, 100)

  function Stuck(n: nat): seq<Row> {
    if n == 0 then [] else Stuck(n - 1) + [Row(n, "m", 0, Envelope(Some(PAIRING), None, None, 1, ""), None, None)]
  }

  // n announcements, then a message.
  function StuckTable(n: nat): Table {
    Table(Stuck(n) + [Row(n + 1, "m", 0, Envelope(Some("text"), None, None, 1, ""), None, None)], n + 1, n + 2)
  }

  lemma {:induction false} StuckRows(n: nat)
    ensures |Stuck(n)| == n
    ensures forall i :: 0 <= i < n ==> Stuck(n)[i].id == i + 1
    ensures forall r :: r in Stuck(n) ==>
              r == Row(r.id, "m", 0, Envelope(Some(PAIRING), None, None, 1, ""), None, None) && 1 <= r.id <= n
  {
    if n > 0 { StuckRows(n - 1); }
  }

  lemma {:induction false} UnitMeasures(rows: seq<Row>, s: Selector)
    requires forall r :: r in rows ==> r.envelope.size == 1
    ensures Count(rows, s) == Bytes(rows, s) <= |rows|
    ensures (forall r :: r in rows ==> s(r)) ==> Count(rows, s) == |rows|
    ensures (forall r :: r in rows ==> !s(r)) ==> Count(rows, s) == 0
  {
    if rows != [] {
      assert rows == rows[..|rows| - 1] + [rows[|rows| - 1]];
      UnitMeasures(rows[..|rows| - 1], s);
    }
  }

  lemma StuckTableRows(n: nat)
    ensures var rows := StuckTable(n).rows;
            && Sorted(rows) && |rows| == n + 1
            && (forall r :: r in rows ==> r.mailbox == "m" && r.at == 0 && r.lease.None? && r.source.None? && 1 <= r.id <= n + 1)
            && (forall r :: r in rows ==> r.envelope.size == 1 && r.envelope.sender.None? && r.envelope.messageId.None?)
  {
    StuckRows(n);
  }

  lemma StuckIsGood(n: nat)
    requires n <= MAX_PAIRING_PER_MAILBOX
    ensures Good(ROOMY, StuckTable(n))
  {
    hide Count, Bytes, Stuck, Sorted;
    var rows := StuckTable(n).rows;
    StuckTableRows(n);
    forall s: Selector ensures Count(rows, s) == Bytes(rows, s) <= n + 1 { UnitMeasures(rows, s); }
    UnitMeasures(rows, Everything());
    forall m ensures Count(rows, Pairing(m)) <= n { StuckPairing(n, m); }
    forall m, d ensures Count(rows, PairingFrom(m, d)) == 0 { UnitMeasures(rows, PairingFrom(m, d)); }
    forall m, k ensures Count(rows, Keyed(m, k)) == 0 { UnitMeasures(rows, Keyed(m, k)); }
    StuckRows(n);
  }

  lemma StuckPairing(n: nat, m: string)
    ensures Count(StuckTable(n).rows, Pairing(m)) <= n
  {
    hide Count, Stuck;
    StuckRows(n);
    UnitMeasures(Stuck(n), Pairing(m));
    AppendOne(Stuck(n), StuckTable(n).rows[n], Pairing(m));
  }

  lemma StuckQuiet(n: nat, times: seq<nat>)
    requires forall now :: now in times ==> now <= ROOMY.ttl
    ensures Quiet(ROOMY, StuckTable(n), "m", times)
  {
    hide Stuck, Sorted;
    StuckTableRows(n);
  }

  // A table within every quota whose one message no number of fetches with
  // that limit delivers, for each limit within the announcement cap.
  lemma StarvedForEver(limit: nat, times: seq<nat>)
    requires limit <= 8 && forall now :: now in times ==> now <= ROOMY.ttl
    ensures var t := StuckTable(limit);
            && Good(ROOMY, t) && |Select(t.rows, MessageIn("m"))| == 1
            && Drained(ROOMY, t, "m", limit, times) == []
  {
    hide Good, Drained, StuckTable, Sorted, Select, Quiet, Ahead, Mine;
    var t := StuckTable(limit);
    StuckIsGood(limit);
    StuckMessage(limit);
    StuckAhead(limit);
    StuckQuiet(limit, times);
    MineMessages(t, "m");
    NeverDrains(ROOMY, t, "m", limit, times);
  }

  lemma StuckMessage(n: nat)
    ensures var rows := StuckTable(n).rows;
            |rows| == n + 1 && rows[..n] == Stuck(n) && Sorted(rows) && Select(rows, MessageIn("m")) == [rows[n]]
  {
    hide Count, Stuck, Select, Sorted;
    StuckRows(n);
    StuckTableRows(n);
    CountZero(Stuck(n), MessageIn("m"));
    CountIsSelect(Stuck(n), MessageIn("m"));
    FilterAppend(Stuck(n), StuckTable(n).rows[n], MessageIn("m"));
  }

  lemma StuckAhead(n: nat)
    ensures Ahead(Mine(StuckTable(n), "m")) == n
  {
    hide Count, Stuck, Select, Sorted;
    var t := StuckTable(n);
    StuckMessage(n);
    StuckRows(n);
    StuckMailbox(n);
    MineMessages(t, "m");
    UnitMeasures(Stuck(n), AnnouncedBefore(n + 1));
    AppendOne(Stuck(n), t.rows[n], AnnouncedBefore(n + 1));
  }

  lemma StuckMailbox(n: nat)
    ensures Mine(StuckTable(n), "m") == StuckTable(n).rows
  {
    hide Stuck, Select, Sorted;
    StuckTableRows(n);
    SelectEvery(StuckTable(n).rows, InMailbox("m"));
  }

  lemma {:induction false} SelectEvery(rows: seq<Row>, s: Selector)
    requires forall r :: r in rows ==> s(r)
    ensures Select(rows, s) == rows
  {
    if rows != [] {
      assert rows == rows[..|rows| - 1] + [rows[|rows| - 1]];
      SelectEvery(rows[..|rows| - 1], s);
    }
  }
}
