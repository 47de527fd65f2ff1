// Storing an envelope: what the relay may evict to make room for it, and in
// what order. The three eviction loops of the store are methods here; each is
// proved against a description of the rows it leaves.
module RelayStore {
  import opened Options
  import opened RelayTable

  datatype Config = Config(ttl: nat, maxEnvelope: nat, maxQueue: nat, maxMailboxBytes: nat,
                           maxPerSource: nat, maxTotal: nat)

  function Cutoff(cfg: Config, now: nat): nat { if now < cfg.ttl then 0 else now - cfg.ttl }

  function Live(cfg: Config, rows: seq<Row>, now: nat): seq<Row> { Without(rows, Expired(Cutoff(cfg, now))) }

  // take_queue never leases these, so a full pairing set can always give one up.
  ghost predicate PairingUnleased(rows: seq<Row>) {
    forall r :: r in rows && r.envelope.IsPairing() ==> r.lease.None?
  }

  // ---- Pairing announcements ----------------------------------------------

  function UnleasedPairing(m: string): Selector {
    (r: Row) => r.mailbox == m && r.envelope.IsPairing() && r.lease.None?
  }

  // The announcements that go so that fewer than eight are left: the oldest.
  function PairingExcess(rows: seq<Row>, m: string): seq<Row> {
    var p := Select(rows, Pairing(m));
    if |p| < MAX_PAIRING_PER_MAILBOX then [] else p[..|p| - MAX_PAIRING_PER_MAILBOX + 1]
  }

  lemma SelectAgree(rows: seq<Row>, a: Selector, b: Selector)
    requires Sorted(rows) && forall r :: r in rows ==> (a(r) <==> b(r))
    ensures Select(rows, a) == Select(rows, b)
  {
    SelectSorted(rows, a);
    SelectSorted(rows, b);
    InSelect(rows, a);
    InSelect(rows, b);
    SameRows(Select(rows, a), Select(rows, b));
  }

  // One row of a victim list deleted after the ones before it.
  lemma DropNext(rows: seq<Row>, vs: seq<Row>, k: nat)
    requires Sorted(rows) && k < |vs|
    ensures Without(Without(rows, AnyOf(Ids(vs[..k]))), AnyOf({vs[k].id})) == Without(rows, AnyOf(Ids(vs[..k + 1])))
  {
    IdsOfPrefix(vs, k);
    WithoutTwice(rows, Ids(vs[..k]), {vs[k].id});
  }

  lemma DropNone(rows: seq<Row>, vs: seq<Row>)
    requires Sorted(rows)
    ensures Without(rows, AnyOf(Ids(vs[..0]))) == rows
  {
    WithoutNone(rows, AnyOf(Ids(vs[..0])));
  }

  function AfterOldest(rows: seq<Row>, m: string, k: nat): seq<Row>
    requires k <= |Select(rows, Pairing(m))|
  {
    Without(rows, AnyOf(Ids(Select(rows, Pairing(m))[..k])))
  }

  lemma {:induction false} PairingAfterOldest(rows: seq<Row>, m: string, k: nat)
    requires Sorted(rows) && k <= |Select(rows, Pairing(m))|
    ensures SubTable(AfterOldest(rows, m, k), rows)
    ensures Select(AfterOldest(rows, m, k), Pairing(m)) == Select(rows, Pairing(m))[k..]
    ensures k < |Select(rows, Pairing(m))| ==>
              Without(AfterOldest(rows, m, k), AnyOf({Select(rows, Pairing(m))[k].id})) == AfterOldest(rows, m, k + 1)
  {
    var all := Select(rows, Pairing(m));
    WithoutIsSub(rows, AnyOf(Ids(all[..k])));
    if k == 0 {
      DropNone(rows, all);
    } else {
      PairingAfterOldest(rows, m, k - 1);
      SelectAfterFirst(AfterOldest(rows, m, k - 1), Pairing(m));
    }
    if k < |all| { DropNext(rows, all, k); }
  }

  // The eviction statement finds a row: none of these is leased.
  lemma OldestUnleased(rows: seq<Row>, m: string, k: nat)
    requires Sorted(rows) && PairingUnleased(rows) && k <= |Select(rows, Pairing(m))|
    ensures Count(AfterOldest(rows, m, k), Pairing(m)) == |Select(rows, Pairing(m))| - k
    ensures Select(AfterOldest(rows, m, k), UnleasedPairing(m)) == Select(rows, Pairing(m))[k..]
  {
    PairingAfterOldest(rows, m, k);
    CountIsSelect(AfterOldest(rows, m, k), Pairing(m));
    SelectAgree(AfterOldest(rows, m, k), Pairing(m), UnleasedPairing(m));
  }

  // One deleted row takes its bytes off the running total.
  lemma TotalAfterDelete(rows: seq<Row>, c: seq<Row>, s: Selector)
    requires Sorted(rows) && c == Select(rows, s) && c != []
    ensures Bytes(Without(rows, AnyOf({c[0].id})), Everything()) == Bytes(rows, Everything()) - c[0].envelope.size
  {
    InSelect(rows, s);
    assert c[0] in c;
    RemoveOne(rows, c[0], Everything());
  }

  method MakePairingRoom(rows: seq<Row>, total: nat, m: string) returns (kept: seq<Row>, left: nat)
    requires Sorted(rows) && PairingUnleased(rows) && total == Bytes(rows, Everything())
    ensures kept == Without(rows, AnyOf(Ids(PairingExcess(rows, m))))
    ensures left == Bytes(kept, Everything())
  {
    hide Select, Without, Count, Bytes, Sorted;
    ghost var all := Select(rows, Pairing(m));
    ghost var gone: nat := 0;
    kept, left := rows, total;
    DropNone(rows, all);
    OldestUnleased(rows, m, 0);
    while Count(kept, Pairing(m)) >= MAX_PAIRING_PER_MAILBOX
      invariant gone <= |all| && kept == AfterOldest(rows, m, gone)
      invariant Count(kept, Pairing(m)) == |all| - gone && left == Bytes(kept, Everything())
      invariant gone > 0 ==> |all| - gone + 1 >= MAX_PAIRING_PER_MAILBOX
      decreases |all| - gone
    {
      OldestUnleased(rows, m, gone);
      PairingAfterOldest(rows, m, gone);
      var candidates := Select(kept, UnleasedPairing(m));
      if candidates != [] {
        TotalAfterDelete(kept, candidates, UnleasedPairing(m));
        kept, left := Without(kept, AnyOf({candidates[0].id})), left - candidates[0].envelope.size;
      }
      gone := gone + 1;
      OldestUnleased(rows, m, gone);
    }
    assert all[..gone] == PairingExcess(rows, m);
  }

  // ---- The mailbox's own quotas -------------------------------------------

  predicate MailboxFits(cfg: Config, rows: seq<Row>, m: string, size: nat) {
    Count(rows, InMailbox(m)) < cfg.maxQueue && Bytes(rows, InMailbox(m)) + size <= cfg.maxMailboxBytes
  }

  // The order in which a mailbox gives rows up: unleased rows of a named kind
  // other than pairing, oldest first; then the other unleased rows, among
  // them those without a kind.
  function Victims(rows: seq<Row>, m: string): seq<Row> {
    Select(rows, UnleasedNamed(m)) + Select(rows, UnleasedOther(m))
  }

  function AfterVictims(rows: seq<Row>, m: string, k: nat): seq<Row>
    requires k <= |Victims(rows, m)|
  {
    Without(rows, AnyOf(Ids(Victims(rows, m)[..k])))
  }

  // No shorter run of victims would have made room.
  ghost predicate NotSooner(cfg: Config, rows: seq<Row>, m: string, size: nat, k: nat)
    requires k <= |Victims(rows, m)|
  {
    forall j: nat :: j < k ==> !MailboxFits(cfg, AfterVictims(rows, m, j), m, size)
  }

  // The row the eviction statement picks: COALESCE of its two subqueries.
  function Candidates(rows: seq<Row>, m: string): seq<Row> {
    var named := Select(rows, UnleasedNamed(m));
    if named != [] then named else Select(rows, UnleasedIn(m))
  }

  // Where the victims' order stands after k of them.
  ghost predicate VictimsLeft(rows: seq<Row>, m: string, k: nat)
    requires k <= |Victims(rows, m)|
  {
    var named, other := Select(rows, UnleasedNamed(m)), Select(rows, UnleasedOther(m));
    var kept := AfterVictims(rows, m, k);
    && SubTable(kept, rows)
    && Select(kept, UnleasedNamed(m)) == (if k <= |named| then named[k..] else [])
    && Select(kept, UnleasedOther(m)) == (if k <= |named| then other else other[k - |named|..])
  }

  lemma NextCandidate(rows: seq<Row>, m: string, k: nat)
    requires k <= |Victims(rows, m)| && VictimsLeft(rows, m, k)
    ensures var c := Candidates(AfterVictims(rows, m, k), m);
            if k == |Victims(rows, m)| then c == [] else c != [] && c[0] == Victims(rows, m)[k]
  {
    var kept := AfterVictims(rows, m, k);
    if Select(kept, UnleasedNamed(m)) == [] { NoNamedLeft(kept, m); }
  }

  // One more victim while there are unleased rows of a named kind.
  lemma NamedGoesFirst(rows: seq<Row>, m: string)
    requires Sorted(rows) && Select(rows, UnleasedNamed(m)) != []
    ensures var v := Select(rows, UnleasedNamed(m))[0];
            && Select(Without(rows, AnyOf({v.id})), UnleasedNamed(m)) == Select(rows, UnleasedNamed(m))[1..]
            && Select(Without(rows, AnyOf({v.id})), UnleasedOther(m)) == Select(rows, UnleasedOther(m))
  {
    hide Select, Without, Sorted;
    SelectAfterFirst(rows, UnleasedNamed(m));
    SelectAfterOther(rows, Select(rows, UnleasedNamed(m))[0], UnleasedOther(m));
  }

  // ... and once there are none.
  lemma ThenTheRest(rows: seq<Row>, m: string)
    requires Sorted(rows) && Select(rows, UnleasedNamed(m)) == [] && Select(rows, UnleasedOther(m)) != []
    ensures var v := Select(rows, UnleasedOther(m))[0];
            && Select(Without(rows, AnyOf({v.id})), UnleasedNamed(m)) == []
            && Select(Without(rows, AnyOf({v.id})), UnleasedOther(m)) == Select(rows, UnleasedOther(m))[1..]
  {
    hide Select, Without, Sorted;
    SelectAfterFirst(rows, UnleasedOther(m));
    SelectAfterOther(rows, Select(rows, UnleasedOther(m))[0], UnleasedNamed(m));
  }

  lemma VictimAt(rows: seq<Row>, m: string, k: nat)
    requires k < |Victims(rows, m)| && VictimsLeft(rows, m, k)
    ensures var named, other := Select(rows, UnleasedNamed(m)), Select(rows, UnleasedOther(m));
            var kept := AfterVictims(rows, m, k);
            if k < |named| then Select(kept, UnleasedNamed(m)) != [] && Victims(rows, m)[k] == Select(kept, UnleasedNamed(m))[0]
            else Select(kept, UnleasedNamed(m)) == [] && Select(kept, UnleasedOther(m)) != [] &&
                 Victims(rows, m)[k] == Select(kept, UnleasedOther(m))[0]
  {
    hide Select, Without, Sorted;
  }

  lemma OneVictimOn(rows: seq<Row>, m: string, k: nat)
    requires Sorted(rows) && k < |Victims(rows, m)| && VictimsLeft(rows, m, k)
    ensures VictimsLeft(rows, m, k + 1)
  {
    hide Select, Without, Sorted, SubTable;
    var vs := Victims(rows, m);
    var before := AfterVictims(rows, m, k);
    WithoutIsSub(rows, AnyOf(Ids(vs[..k + 1])));
    SubIsSorted(before, rows);
    VictimAt(rows, m, k);
    DropNext(rows, vs, k);
    if k < |Select(rows, UnleasedNamed(m))| { NamedGoesFirst(before, m); } else { ThenTheRest(before, m); }
  }

  lemma SubIsSorted(kept: seq<Row>, rows: seq<Row>)
    requires SubTable(kept, rows)
    ensures Sorted(kept)
  {
  }

  lemma NoVictimYet(rows: seq<Row>, m: string)
    requires Sorted(rows)
    ensures VictimsLeft(rows, m, 0)
  {
    hide Select, Without, Sorted;
    DropNone(rows, Victims(rows, m));
    var kept := AfterVictims(rows, m, 0);
    assert kept == rows;
  }

  lemma {:induction false} VictimsInOrder(rows: seq<Row>, m: string, k: nat)
    requires Sorted(rows) && k <= |Victims(rows, m)|
    ensures VictimsLeft(rows, m, k)
  {
    hide VictimsLeft, Victims;
    if k == 0 {
      NoVictimYet(rows, m);
    } else {
      VictimsInOrder(rows, m, k - 1);
      OneVictimOn(rows, m, k - 1);
    }
  }

  lemma EvictionStep(rows: seq<Row>, m: string, k: nat)
    requires Sorted(rows) && k <= |Victims(rows, m)|
    ensures var kept := AfterVictims(rows, m, k);
            var c := Candidates(kept, m);
            && (c == [] <==> k == |Victims(rows, m)|)
            && (c != [] ==> Without(kept, AnyOf({c[0].id})) == AfterVictims(rows, m, k + 1))
  {
    VictimsInOrder(rows, m, k);
    NextCandidate(rows, m, k);
    if k < |Victims(rows, m)| { DropNext(rows, Victims(rows, m), k); }
  }

  method MakeMailboxRoom(cfg: Config, rows: seq<Row>, total: nat, m: string, size: nat)
    returns (kept: seq<Row>, left: nat, evicted: nat, ok: bool)
    requires Sorted(rows) && total == Bytes(rows, Everything())
    ensures left == Bytes(kept, Everything())
    ensures evicted <= |Victims(rows, m)| && NotSooner(cfg, rows, m, size, evicted)
    ensures kept == AfterVictims(rows, m, evicted)
    ensures ok <==> MailboxFits(cfg, kept, m, size)
    ensures !ok ==> evicted == |Victims(rows, m)|
  {
    hide Select, Without, Count, Bytes, Sorted;
    kept, left, evicted, ok := rows, total, 0, true;
    DropNone(rows, Victims(rows, m));
    while !MailboxFits(cfg, kept, m, size)
      invariant evicted <= |Victims(rows, m)| && kept == AfterVictims(rows, m, evicted)
      invariant SubTable(kept, rows) && left == Bytes(kept, Everything())
      invariant NotSooner(cfg, rows, m, size, evicted)
      decreases |Victims(rows, m)| - evicted
    {
      EvictionStep(rows, m, evicted);
      var candidates := Candidates(kept, m);
      if candidates == [] { return kept, left, evicted, false; }
      TotalAfterDelete(kept, candidates, if Select(kept, UnleasedNamed(m)) != [] then UnleasedNamed(m) else UnleasedIn(m));
      WithoutIsSub(kept, AnyOf({candidates[0].id}));
      kept, left := Without(kept, AnyOf({candidates[0].id})), left - candidates[0].envelope.size;
      evicted := evicted + 1;
    }
  }

  lemma NoNamedLeft(rows: seq<Row>, m: string)
    requires Sorted(rows) && Select(rows, UnleasedNamed(m)) == []
    ensures Select(rows, UnleasedIn(m)) == Select(rows, UnleasedOther(m))
  {
    InSelect(rows, UnleasedNamed(m));
    forall r | r in rows ensures UnleasedIn(m)(r) <==> UnleasedOther(m)(r) {
      if UnleasedNamed(m)(r) { assert r in Select(rows, UnleasedNamed(m)); }
    }
    SelectAgree(rows, UnleasedIn(m), UnleasedOther(m));
  }

  // ---- The relay's own total ----------------------------------------------

  ghost predicate Holds(rows: seq<Row>, h: Option<string>) {
    exists r :: r in rows && r.lease.None? && r.source == h
  }

  // SQL leaves ties open, so any holder with the most unleased bytes will do.
  ghost predicate Largest(rows: seq<Row>, h: Option<string>) {
    && Holds(rows, h)
    && forall r :: r in rows && r.lease.None? ==> Bytes(rows, UnleasedOf(r.source)) <= Bytes(rows, UnleasedOf(h))
  }

  method LargestHolder(rows: seq<Row>) returns (h: Option<Option<string>>)
    ensures h.Some? <==> exists r :: r in rows && r.lease.None?
    ensures h.Some? ==> Largest(rows, h.value)
  {
    h := None;
    for i := 0 to |rows|
      invariant h.Some? <==> exists r :: r in rows[..i] && r.lease.None?
      invariant h.Some? ==> Holds(rows, h.value)
      invariant h.Some? ==> forall r :: r in rows[..i] && r.lease.None? ==>
        Bytes(rows, UnleasedOf(r.source)) <= Bytes(rows, UnleasedOf(h.value))
    {
      assert rows[..i + 1] == rows[..i] + [rows[i]];
      if rows[i].lease.None? {
        if h.None? || Bytes(rows, UnleasedOf(h.value)) < Bytes(rows, UnleasedOf(rows[i].source)) {
          h := Some(rows[i].source);
        }
      }
    }
    assert rows[..|rows|] == rows;
  }

  predicate TotalFits(rows: seq<Row>, size: nat, max: nat) { Bytes(rows, Everything()) + size <= max }

  // What is left after making room for [size] bytes: only unleased rows went,
  // each holder's oldest first; the last one to go was needed; and a holder
  // other than the largest at the start paid only when that one had nothing
  // left to give and this was not enough.
  ghost predicate RoomMade(rows: seq<Row>, kept: seq<Row>, size: nat, max: nat) {
    && SubTable(kept, rows)
    && (forall r :: r in rows && r !in kept ==> r.lease.None?)
    && OldestFirst(rows, kept)
    && (kept == rows || LastWasNeeded(rows, kept, size, max))
    && (kept == rows || exists h :: Largest(rows, h) && LargestPaysFirst(rows, kept, h, size, max))
    && PaidInTurn(rows, kept, size, max)
  }

  // Who paid, one row a turn. first: the holder that pays while it has anything.
  datatype Turn = Turn(kept: seq<Row>, first: Option<Option<string>>)

  // One turn: that holder's while it can pay; otherwise the largest's, which is
  // chosen to pay on, but not right after another ran out.
  ghost predicate MayPay(t: Turn, payer: Option<string>) {
    if t.first.Some? && Holds(t.kept, t.first.value) then payer == t.first.value else Largest(t.kept, payer)
  }

  ghost function Paid(t: Turn, payer: Option<string>): Turn {
    var held := Select(t.kept, UnleasedOf(payer));
    Turn(if held == [] then t.kept else Without(t.kept, AnyOf({held[0].id})),
         if t.first.None? then Some(payer) else if Holds(t.kept, t.first.value) then t.first else None)
  }

  ghost function AfterTurns(rows: seq<Row>, payers: seq<Option<string>>): Turn {
    if payers == [] then Turn(rows, None)
    else Paid(AfterTurns(rows, payers[..|payers| - 1]), payers[|payers| - 1])
  }

  // Each paid in its turn, and not before it was needed.
  ghost predicate InTurn(rows: seq<Row>, payers: seq<Option<string>>, size: nat, max: nat) {
    payers != [] ==>
      var front, t := payers[..|payers| - 1], AfterTurns(rows, payers[..|payers| - 1]);
      InTurn(rows, front, size, max) && !TotalFits(t.kept, size, max) && MayPay(t, payers[|payers| - 1])
  }

  ghost predicate PaidInTurn(rows: seq<Row>, kept: seq<Row>, size: nat, max: nat) {
    exists payers :: InTurn(rows, payers, size, max) && AfterTurns(rows, payers).kept == kept
  }

  lemma OneMoreTurn(rows: seq<Row>, payers: seq<Option<string>>, payer: Option<string>, size: nat, max: nat)
    requires InTurn(rows, payers, size, max)
    requires !TotalFits(AfterTurns(rows, payers).kept, size, max) && MayPay(AfterTurns(rows, payers), payer)
    ensures InTurn(rows, payers + [payer], size, max)
    ensures AfterTurns(rows, payers + [payer]) == Paid(AfterTurns(rows, payers), payer)
  {
    assert (payers + [payer])[..|payers|] == payers;
  }

  ghost predicate OldestFirst(rows: seq<Row>, kept: seq<Row>) {
    forall r, q :: r in rows && r !in kept && q in kept && q.lease.None? && q.source == r.source ==> r.id < q.id
  }

  ghost predicate LastWasNeeded(rows: seq<Row>, kept: seq<Row>, size: nat, max: nat) {
    exists v :: v in rows && v !in kept && Bytes(kept, Everything()) + v.envelope.size + size > max
  }

  ghost predicate LargestPaysFirst(rows: seq<Row>, kept: seq<Row>, h: Option<string>, size: nat, max: nat) {
    || (forall r :: r in rows && r !in kept ==> r.source == h)
    || (!Holds(kept, h) && OtherNeeded(rows, kept, h, size, max))
  }

  // The last payment by someone else was needed with all of h's rows gone.
  ghost predicate OtherNeeded(rows: seq<Row>, kept: seq<Row>, h: Option<string>, size: nat, max: nat) {
    exists v :: v in rows && v !in kept && v.source != h && Bytes(kept, Everything()) + v.envelope.size + size > max
  }

  // The loop's state: the holder chosen first pays until it has nothing left.
  ghost predicate RoomLoop(rows: seq<Row>, kept: seq<Row>, size: nat, max: nat,
                           first: Option<Option<string>>, largest: Option<Option<string>>)
  {
    && SubTable(kept, rows)
    && (forall r :: r in rows && r !in kept ==> r.lease.None?)
    && OldestFirst(rows, kept)
    && (kept == rows || LastWasNeeded(rows, kept, size, max))
    && (first.None? ==> kept == rows && largest.None?)
    && (first.Some? ==>
          && Largest(rows, first.value)
          && LargestPaysFirst(rows, kept, first.value, size, max)
          && (Holds(kept, first.value) ==> largest == first))
  }

  lemma RoomStep(rows: seq<Row>, kept: seq<Row>, size: nat, max: nat,
                 first: Option<Option<string>>, largest: Option<Option<string>>,
                 payer: Option<string>, next: Option<Option<string>>)
    requires RoomLoop(rows, kept, size, max, first, largest) && !TotalFits(kept, size, max)
    requires first.Some? && (payer == first.value || !Holds(kept, first.value))
    requires next == Some(payer) || !Holds(kept, first.value)
    requires Select(kept, UnleasedOf(payer)) != []
    ensures var v := Select(kept, UnleasedOf(payer))[0];
            var less := Without(kept, AnyOf({v.id}));
            && RoomLoop(rows, less, size, max, first, next)
            && |less| < |kept|
            && v in kept && Bytes(less, Everything()) == Bytes(kept, Everything()) - v.envelope.size
  {
    DeleteOldest(rows, kept, payer, size, max);
    var v := Select(kept, UnleasedOf(payer))[0];
    var less := Without(kept, AnyOf({v.id}));
    assert Holds(less, first.value) ==> Holds(kept, first.value);
    if payer == first.value {
      HoldsWhenSelected(kept, payer);
      assert forall r :: r in rows && r !in less ==> r.source == first.value;
    } else {
      assert v in rows && v !in less && v.source != first.value;
      assert OtherNeeded(rows, less, first.value, size, max);
    }
  }

  lemma HoldsWhenSelected(rows: seq<Row>, h: Option<string>)
    requires Select(rows, UnleasedOf(h)) != []
    ensures Holds(rows, h)
  {
    InSelect(rows, UnleasedOf(h));
    assert Select(rows, UnleasedOf(h))[0] in rows;
  }

  method MakeTotalRoom(rows: seq<Row>, total: nat, size: nat, max: nat) returns (kept: seq<Row>, left: nat, ok: bool)
    requires Sorted(rows) && total == Bytes(rows, Everything())
    ensures RoomMade(rows, kept, size, max) && left == Bytes(kept, Everything())
    ensures ok <==> TotalFits(kept, size, max)
    ensures !ok ==> forall r :: r in kept ==> r.lease.Some?
  {
    hide Select, Without, Bytes, Sorted, InTurn, AfterTurns;
    kept, left, ok := rows, total, true;
    var largest: Option<Option<string>> := None;
    ghost var first: Option<Option<string>> := None;
    ghost var payers: seq<Option<string>> := [];
    NoTurns(rows, size, max);
    while left + size > max
      invariant left == Bytes(kept, Everything())
      invariant RoomLoop(rows, kept, size, max, first, largest)
      invariant InTurn(rows, payers, size, max) && AfterTurns(rows, payers) == Turn(kept, largest)
      decreases |kept|
    {
      if largest.None? {
        largest := LargestHolder(kept);
        if largest.None? { return kept, left, false; }
        HeldBySomeone(kept, largest.value);
        if first.None? { first := largest; }
      }
      var held := Select(kept, UnleasedOf(largest.value));
      if held != [] {
        HoldsWhenSelected(kept, largest.value);
        OneMoreTurn(rows, payers, largest.value, size, max);
        payers := payers + [largest.value];
        RoomStep(rows, kept, size, max, first, largest, largest.value, largest);
      } else {
        // That holder has nothing left to give: look again.
        NothingHeld(kept, largest.value);
        var again := LargestHolder(kept);
        if again.None? { return kept, left, false; }
        HeldBySomeone(kept, again.value);
        held := Select(kept, UnleasedOf(again.value));
        OneMoreTurn(rows, payers, again.value, size, max);
        payers := payers + [again.value];
        RoomStep(rows, kept, size, max, first, largest, again.value, None);
        largest := None;
      }
      kept, left := Without(kept, AnyOf({held[0].id})), left - held[0].envelope.size;
    }
  }

  lemma NoTurns(rows: seq<Row>, size: nat, max: nat)
    ensures InTurn(rows, [], size, max) && AfterTurns(rows, []) == Turn(rows, None)
  {
  }

  lemma NothingHeld(rows: seq<Row>, h: Option<string>)
    requires Select(rows, UnleasedOf(h)) == []
    ensures !Holds(rows, h)
  {
    if Holds(rows, h) { HeldBySomeone(rows, h); }
  }

  lemma HeldBySomeone(rows: seq<Row>, h: Option<string>)
    requires Holds(rows, h)
    ensures Select(rows, UnleasedOf(h)) != []
  {
    InSelect(rows, UnleasedOf(h));
    var r :| r in rows && r.lease.None? && r.source == h;
    assert r in Select(rows, UnleasedOf(h));
  }

  // Deleting one holder's oldest unleased row.
  lemma DeleteOldest(rows: seq<Row>, kept: seq<Row>, h: Option<string>, size: nat, max: nat)
    requires SubTable(kept, rows) && OldestFirst(rows, kept)
    requires Select(kept, UnleasedOf(h)) != [] && !TotalFits(kept, size, max)
    ensures var v := Select(kept, UnleasedOf(h))[0];
            var less := Without(kept, AnyOf({v.id}));
            && v in kept && v.lease.None? && v.source == h
            && (forall r :: r in less <==> r in kept && r != v)
            && SubTable(less, rows) && |less| < |kept|
            && OldestFirst(rows, less)
            && Bytes(less, Everything()) == Bytes(kept, Everything()) - v.envelope.size
            && LastWasNeeded(rows, less, size, max)
  {
    var sel := Select(kept, UnleasedOf(h));
    var v := sel[0];
    assert v in sel;
    InSelect(kept, UnleasedOf(h));
    SelectSorted(kept, UnleasedOf(h));
    SplitFirst(sel);
    InAfterRemove(kept, v);
    WithoutIsSub(kept, AnyOf({v.id}));
    RemoveOne(kept, v, Everything());
    Shorter(kept, v);
    forall q | q in kept && q != v && q.lease.None? && q.source == h ensures v.id < q.id {
      assert q in sel;
    }
  }

  lemma Shorter(rows: seq<Row>, v: Row)
    requires Sorted(rows) && v in rows
    ensures |Without(rows, AnyOf({v.id}))| == |rows| - 1
  {
    RemoveOne(rows, v, Everything());
    EverythingCounts(rows);
    EverythingCounts(Without(rows, AnyOf({v.id})));
  }

  lemma {:induction false} EverythingCounts(rows: seq<Row>)
    ensures Count(rows, Everything()) == |rows|
  {
    if rows != [] { EverythingCounts(rows[..|rows| - 1]); }
  }
}
