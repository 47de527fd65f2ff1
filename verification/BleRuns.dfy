// What holds over every sequence of link-table operations, at one node and at
// the two ends of a crossed connection.
module BleRuns {
  import opened Options
  import opened Numbers
  import opened Octets
  import opened Reassembler
  import opened BleLinks

  datatype Run = Start | Then(earlier: Run, op: Op, after: Node)
  {
    function Now(): Node { if Start? then EMPTY_NODE else after }
  }

  ghost predicate Possible(run: Run) {
    run.Then? ==> Possible(run.earlier) && Step(run.earlier.Now(), run.op, run.after)
  }

  ghost predicate Earlier(p: Run, run: Run) { p == run || (run.Then? && Earlier(p, run.earlier)) }

  lemma {:induction false} AlwaysSafe(run: Run)
    requires Possible(run)
    ensures Safe(run.Now())
  {
    match run
    case Start =>
    case Then(earlier, op, after) =>
      AlwaysSafe(earlier);
      StepKeepsSafe(earlier.Now(), op, after);
  }

  // ---- No link to this device -----------------------------------------------------

  // The address is only ever set while no link has it as its peer.
  ghost predicate AddressesFree(run: Run) {
    run.Then? ==>
      && AddressesFree(run.earlier)
      && (run.op.SetLocal? ==> forall i :: i in run.earlier.Now().links ==> run.earlier.Now().links[i].peer != run.op.local)
  }

  lemma {:induction false} NeverSelf(run: Run)
    requires Possible(run) && AddressesFree(run)
    ensures NotSelf(run.Now())
  {
    match run
    case Start =>
    case Then(earlier, op, after) =>
      hide Step;
      NeverSelf(earlier);
      StepKeepsNotSelf(earlier.Now(), op, after);
  }

  // ---- Retired ids ----------------------------------------------------------------

  lemma StepOnlyAddsNext(s: Node, op: Op, s': Node)
    requires Step(s, op, s')
    ensures s.next <= s'.next
    ensures forall id :: id in s'.links ==> id in s.links || s.next < id <= s'.next
  {
    hide Hear, Expired, BackedOff, OneBackedOff, Blocked;
  }

  lemma {:induction false} RetiredForGood(p: Run, run: Run, id: nat)
    requires Possible(run) && Earlier(p, run) && id <= p.Now().next && id !in p.Now().links
    ensures id <= run.Now().next && id !in run.Now().links
  {
    if p != run {
      hide Step;
      RetiredForGood(p, run.earlier, id);
      StepOnlyAddsNext(run.earlier.Now(), run.op, run.after);
    }
  }

  ghost predicate Addresses(op: Op, id: nat) {
    (op.Ready? || op.Remove? || op.Enqueue? || op.TakeWrite? || op.Receive?) && op.id == id
  }

  // A late callback for a link that is gone changes nothing at all.
  lemma LateCallback(p: Run, run: Run, id: nat)
    requires Possible(run) && run.Then? && Earlier(p, run.earlier)
    requires id <= p.Now().next && id !in p.Now().links && Addresses(run.op, id)
    ensures run.Now() == run.earlier.Now()
    ensures (run.op.Ready? || run.op.Enqueue? ==> !run.op.ok) && (run.op.TakeWrite? ==> run.op.taken.None?)
    ensures run.op.Receive? ==> run.op.packets == []
  {
    RetiredForGood(p, run.earlier, id);
    var s := run.earlier.Now();
    assert s.links - {id} == s.links;
  }

  // ---- Writes come out as they went in ----------------------------------------------

  function Accepted(run: Run, id: nat): seq<seq<Byte>> {
    if run.Start? then []
    else Accepted(run.earlier, id) + if run.op.Enqueue? && run.op.id == id && run.op.ok then [run.op.bytes] else []
  }

  function Taken(run: Run, id: nat): seq<seq<Byte>> {
    if run.Start? then []
    else Taken(run.earlier, id) + if run.op.TakeWrite? && run.op.id == id && run.op.taken.Some? then [run.op.taken.value] else []
  }

  // What one operation does to the queue of a link it leaves in place.
  lemma QueueStep(s: Node, op: Op, s': Node, id: nat)
    requires Safe(s) && Step(s, op, s') && id in s.links && id in s'.links
    ensures (if op.TakeWrite? && op.id == id && op.taken.Some? then [op.taken.value] else []) + s'.links[id].queue
            == s.links[id].queue + (if op.Enqueue? && op.id == id && op.ok then [op.bytes] else [])
  {
    hide Hear, Expired, BackedOff, OneBackedOff, Blocked, QueueOk, Accepts, OnePerPeer, Newest, EventsOf, BackoffOk;
    if op.Receive? && op.id in s.links { HearKeepsQueue(s.links[op.id], op.chunk, op.now); }
  }

  lemma NewLinkIsEmpty(s: Node, op: Op, s': Node, id: nat)
    requires Step(s, op, s') && id !in s.links && id in s'.links
    ensures id > s.next && s'.links[id].queue == [] && op.Reserve?
    ensures s'.links[id].second == op.now / 1000 && s'.links[id].packets == 0
  {
    hide Hear, Expired, BackedOff, OneBackedOff, Blocked;
  }

  // Nothing is sent on a link that does not exist.
  lemma SentOnLinks(s: Node, op: Op, s': Node, id: nat)
    requires Step(s, op, s') && id !in s.links
    ensures !(op.Enqueue? && op.id == id && op.ok) && !(op.TakeWrite? && op.id == id && op.taken.Some?)
  {
  }

  lemma {:induction false} UnusedIds(run: Run, id: nat)
    requires Possible(run) && id > run.Now().next
    ensures id !in run.Now().links && Accepted(run, id) == [] && Taken(run, id) == []
  {
    AlwaysSafe(run);
    if run.Then? {
      hide Step;
      StepOnlyAddsNext(run.earlier.Now(), run.op, run.after);
      UnusedIds(run.earlier, id);
      SentOnLinks(run.earlier.Now(), run.op, run.after, id);
    }
  }

  // On every live link, what was accepted is what was taken and then what is
  // queued, in order.
  lemma {:induction false} WritesInOrder(run: Run, id: nat)
    requires Possible(run) && id in run.Now().links
    ensures Accepted(run, id) == Taken(run, id) + run.Now().links[id].queue
  {
    hide Step, Safe;
    var s, op, s' := run.earlier.Now(), run.op, run.after;
    AlwaysSafe(run.earlier);
    if id in s.links {
      WritesInOrder(run.earlier, id);
      QueueStep(s, op, s', id);
      var put := if op.Enqueue? && op.id == id && op.ok then [op.bytes] else [];
      var got := if op.TakeWrite? && op.id == id && op.taken.Some? then [op.taken.value] else [];
      Shift(Taken(run.earlier, id), s.links[id].queue, put, got, s'.links[id].queue);
    } else {
      NewLinkIsEmpty(s, op, s', id);
      UnusedIds(run.earlier, id);
      SentOnLinks(s, op, s', id);
    }
  }

  lemma Shift(taken: seq<seq<Byte>>, queue: seq<seq<Byte>>, put: seq<seq<Byte>>, got: seq<seq<Byte>>, queue': seq<seq<Byte>>)
    requires got + queue' == queue + put
    ensures taken + queue + put == taken + got + queue'
  {
    assert taken + queue + put == taken + (queue + put);
    assert taken + got + queue' == taken + (got + queue');
  }

  // ---- Rate ----------------------------------------------------------------------------

  function Clock(run: Run): nat {
    if run.Start? then 0
    else if run.op.Reserve? || run.op.Remove? || run.op.Expire? || run.op.Receive? then run.op.now
    else Clock(run.earlier)
  }

  // The clock these operations read never goes back.
  ghost predicate Timely(run: Run) {
    run.Then? ==> Timely(run.earlier) && Clock(run.earlier) <= Clock(run)
  }

  // How many packets of the link reached the event buffer in that second.
  function Reached(run: Run, id: nat, second: nat): nat {
    if run.Start? then 0
    else Reached(run.earlier, id, second)
         + if run.op.Receive? && run.op.id == id && run.op.now / 1000 == second then |run.op.packets| else 0
  }

  lemma HearCounts(l: Link, chunk: seq<Byte>, now: nat)
    ensures var h := Hear(l, chunk, now);
            var before := if l.second == now / 1000 then l.packets else 0;
            && h.link.second == now / 1000
            && |h.packets| + Min(before, MAX_PACKETS_PER_SECOND) <= Min(h.link.packets, MAX_PACKETS_PER_SECOND)
  {
    hide Pushed;
  }

  ghost predicate CountsFit(run: Run, id: nat, second: nat) {
    && Reached(run, id, second) <= MAX_PACKETS_PER_SECOND
    && (id in run.Now().links ==>
          var l := run.Now().links[id];
          && l.second <= Clock(run) / 1000
          && (second > l.second ==> Reached(run, id, second) == 0)
          && (second == l.second ==> Reached(run, id, second) <= l.packets))
    && (id > run.Now().next ==> Reached(run, id, second) == 0)
  }

  lemma OtherLinkSame(s: Node, op: Op, s': Node, id: nat)
    requires Step(s, op, s') && id in s.links && id in s'.links && !(op.Receive? && op.id == id)
    requires op.Reserve? ==> id <= s.next
    ensures s'.links[id].second == s.links[id].second && s'.links[id].packets == s.links[id].packets
  {
    hide Hear, Expired, BackedOff, OneBackedOff, Blocked;
  }

  lemma ReceiveOnLink(s: Node, op: Op, s': Node)
    requires Step(s, op, s') && op.Receive?
    ensures op.id !in s.links ==> op.packets == []
    ensures op.id in s.links ==>
              && op.id in s'.links && op.packets == Hear(s.links[op.id], op.chunk, op.now).packets
              && s'.links[op.id] == Hear(s.links[op.id], op.chunk, op.now).link
  {
    hide Hear;
  }

  lemma {:induction false} CountsAlwaysFit(run: Run, id: nat, second: nat)
    requires Possible(run) && Timely(run)
    ensures CountsFit(run, id, second)
  {
    if run.Then? {
      var s, op, s' := run.earlier.Now(), run.op, run.after;
      hide Step, Hear, Safe;
      CountsAlwaysFit(run.earlier, id, second);
      StepOnlyAddsNext(s, op, s');
      SafeIds(run.earlier, id);
      if op.Receive? && op.id == id {
        ReceiveOnLink(s, op, s');
        if id in s.links { HearCounts(s.links[id], op.chunk, op.now); }
      } else if id in s.links && id in s'.links {
        OtherLinkSame(s, op, s', id);
      } else if id in s'.links {
        NewLinkIsEmpty(s, op, s', id);
      }
    }
  }

  lemma SafeIds(run: Run, id: nat)
    requires Possible(run)
    ensures id in run.Now().links ==> id <= run.Now().next
  {
    AlwaysSafe(run);
  }

  // However chunks arrive, at most 40 packets of one link reach the event
  // buffer in any second of the clock.
  lemma RateBound(run: Run, id: nat, second: nat)
    requires Possible(run) && Timely(run)
    ensures Reached(run, id, second) <= 40
  {
    CountsAlwaysFit(run, id, second);
  }

  // ---- Events -------------------------------------------------------------------------

  function AllReached(run: Run): seq<Event> {
    if run.Start? then []
    else AllReached(run.earlier) + if run.op.Receive? then EventsOf(run.op.id, run.op.packets) else []
  }

  ghost predicate Suffix(a: seq<Event>, b: seq<Event>) { |a| <= |b| && b[|b| - |a|..] == a }

  lemma EventsStep(s: Node, op: Op, s': Node)
    requires Step(s, op, s')
    ensures var more := if op.Receive? then EventsOf(op.id, op.packets) else [];
            Suffix(s'.events, s.events + more)
  {
    hide Hear, BackedOff, OneBackedOff, Blocked, Expired, Accepts;
    if !op.Receive? || op.id !in s.links { assert s.events + [] == s.events; }
  }

  // The buffer is always the newest of the packets that reached it, in order:
  // a flood drops the oldest, a poll takes the oldest.
  lemma {:induction false} EventsAreNewest(run: Run)
    requires Possible(run)
    ensures Suffix(run.Now().events, AllReached(run))
  {
    if run.Then? {
      hide Step, Suffix, EventsOf;
      EventsAreNewest(run.earlier);
      var s, op, s' := run.earlier.Now(), run.op, run.after;
      var more := if op.Receive? then EventsOf(op.id, op.packets) else [];
      EventsStep(s, op, s');
      SuffixAppend(s.events, AllReached(run.earlier), more);
      SuffixOfSuffix(s'.events, s.events + more, AllReached(run));
    } else {
      assert Suffix([], []);
    }
  }

  lemma SuffixAppend(a: seq<Event>, b: seq<Event>, more: seq<Event>)
    requires Suffix(a, b)
    ensures Suffix(a + more, b + more)
  {
  }

  lemma SuffixOfSuffix(a: seq<Event>, b: seq<Event>, c: seq<Event>)
    requires Suffix(a, b) && Suffix(b, c)
    ensures Suffix(a, c)
  {
    assert c[|c| - |a|..] == c[|c| - |b|..][|b| - |a|..];
  }

  // ---- Crossed connections ------------------------------------------------------------

  // The operation does not itself end link id: no removal, clearing, expiry,
  // and no change of this device's address.
  ghost predicate Spares(s: Node, op: Op, id: nat) {
    && !(op.Remove? && op.id == id) && !op.ClearLinks? && !op.SetLocal?
    && (op.Expire? || op.Reserve? ==> id in s.links ==> !Expired(s.links[id], op.now))
  }

  ghost predicate Holds(s: Node, id: nat, peer: nat, role: Role) {
    id in s.links && s.links[id].peer == peer && s.links[id].role == role
  }

  lemma ReserveLeaves(s: Node, op: Op, s': Node, id: nat, peer: nat)
    requires op.Reserve? && Step(s, op, s') && Spares(s, op, id) && Holds(s, id, peer, Preferred(s.local, peer))
    requires OnePerPeer(s.links) && id <= s.next
    ensures s'.local == s.local && Holds(s', id, peer, Preferred(s.local, peer))
    ensures op.peer == peer ==> op.reserved.None? && s' == s
  {
    hide Expired, BackedOff, OnePerPeer;
    if op.peer == peer {
      assert HeldFor(s, peer, id);
      assert Blocked(s, peer, op.role, op.now);
    } else if !Blocked(s, op.peer, op.role, op.now) {
      assert id in WithoutPeer(s.links, op.peer);
      assert id in Live(WithoutPeer(s.links, op.peer), op.now);
    }
  }

  lemma PreferredStays(s: Node, op: Op, s': Node, id: nat, peer: nat)
    requires Safe(s) && Step(s, op, s') && Spares(s, op, id) && Holds(s, id, peer, Preferred(s.local, peer))
    ensures s'.local == s.local && Holds(s', id, peer, Preferred(s.local, peer))
    ensures op.Reserve? && op.peer == peer ==> op.reserved.None? && s' == s
  {
    hide Hear, Expired, BackedOff, OneBackedOff, QueueOk, OnePerPeer, Accepts, Reserved, BackoffOk, Newest, EventsOf, Preferred;
    if op.Reserve? {
      ReserveLeaves(s, op, s', id, peer);
    } else if op.Receive? && op.id in s.links {
      HearKeepsQueue(s.links[op.id], op.chunk, op.now);
    }
  }

  ghost predicate SparesSince(p: Run, run: Run, id: nat) {
    p == run || (run.Then? && SparesSince(p, run.earlier, id) && Spares(run.earlier.Now(), run.op, id))
  }

  lemma {:induction false} PreferredStaysSince(p: Run, run: Run, id: nat, peer: nat)
    requires Possible(run) && SparesSince(p, run, id) && Holds(p.Now(), id, peer, Preferred(p.Now().local, peer))
    ensures run.Now().local == p.Now().local && Holds(run.Now(), id, peer, Preferred(p.Now().local, peer))
  {
    if p != run {
      hide Step, Spares;
      PreferredStaysSince(p, run.earlier, id, peer);
      AlwaysSafe(run.earlier);
      PreferredStays(run.earlier.Now(), run.op, run.after, id, peer);
    }
  }

  lemma RoomForTakeOver(s: Node, peer: nat, now: nat, other: nat)
    requires Safe(s) && HeldFor(s, peer, other)
    ensures |Live(WithoutPeer(s.links, peer), now)| < MAX_LINKS
  {
    hide Expired, QueueOk, BackoffOk;
    var kept := Live(WithoutPeer(s.links, peer), now);
    SubsetSize(kept.Keys, s.links.Keys - {other});
    assert |kept| == |kept.Keys| && |s.links| == |s.links.Keys|;
  }

  lemma PreferredIsFree(s: Node, peer: nat, now: nat, other: nat)
    requires Safe(s) && NotSelf(s) && HeldFor(s, peer, other) && s.links[other].role != Preferred(s.local, peer)
    ensures !Blocked(s, peer, Preferred(s.local, peer), now)
  {
    hide QueueOk, BackoffOk;
    forall id | HeldFor(s, peer, id) ensures id == other { }
  }

  // A reserve in the preferred direction takes over from a link in the other,
  // even in a full table.
  lemma PreferredTakesOver(s: Node, peer: nat, now: nat, r: Option<nat>, s': Node, other: nat)
    requires Safe(s) && NotSelf(s) && s.next < U64_MAX
    requires HeldFor(s, peer, other) && s.links[other].role != Preferred(s.local, peer)
    requires Step(s, Reserve(peer, Preferred(s.local, peer), now, r), s')
    ensures r == Some(s.next + 1) && Holds(s', s.next + 1, peer, Preferred(s.local, peer)) && other !in s'.links
  {
    hide Blocked, Expired, BackedOff, QueueOk, BackoffOk, OnePerPeer, NotSelf;
    PreferredIsFree(s, peer, now, other);
    RoomForTakeOver(s, peer, now, other);
    assert other <= s.next;
  }

  // A reserve for an incoming link leaves this device's own link to the peer
  // exactly when its direction is the one kept, even if the reserve fails.
  lemma OwnCentral(s: Node, peer: nat, now: nat, r: Option<nat>, s': Node, central: nat)
    requires Safe(s) && Holds(s, central, peer, Central) && Step(s, Reserve(peer, Peripheral, now, r), s')
    ensures central in s'.links <==> s.local <= peer
    ensures s.local <= peer ==> r.None? && s' == s
    ensures r.Some? ==> r.value > s.next >= central
  {
    hide BackedOff, Expired, QueueOk, BackoffOk;
    assert HeldFor(s, peer, central);
    assert Blocked(s, peer, Peripheral, now) <==> s.local <= peer by {
      forall i | HeldFor(s, peer, i) ensures i == central { }
    }
  }

  // Two devices that dial each other at once. Once the connection whose
  // central is the lower address is reserved at both ends, both keep it and
  // only it, however their further operations interleave.
  lemma CrossedLinksAgree(pa: Run, ra: Run, ia: nat, pb: Run, rb: Run, ib: nat, a: nat, b: nat)
    requires a < b && Possible(ra) && Possible(rb) && pa.Now().local == a && pb.Now().local == b
    requires SparesSince(pa, ra, ia) && Holds(pa.Now(), ia, b, Central)
    requires SparesSince(pb, rb, ib) && Holds(pb.Now(), ib, a, Peripheral)
    ensures Holds(ra.Now(), ia, b, Central) && forall i :: HeldFor(ra.Now(), b, i) ==> i == ia
    ensures Holds(rb.Now(), ib, a, Peripheral) && forall i :: HeldFor(rb.Now(), a, i) ==> i == ib
  {
    PreferredStaysSince(pa, ra, ia, b);
    PreferredStaysSince(pb, rb, ib, a);
    AlwaysSafe(ra);
    AlwaysSafe(rb);
  }

  // And no later reserve for that peer succeeds.
  lemma {:induction false} NoSecondReserve(p: Run, run: Run, id: nat, peer: nat)
    requires Possible(run) && run.Then? && SparesSince(p, run.earlier, id) && Spares(run.earlier.Now(), run.op, id)
    requires Holds(p.Now(), id, peer, Preferred(p.Now().local, peer)) && run.op.Reserve? && run.op.peer == peer
    ensures run.op.reserved.None? && run.Now() == run.earlier.Now()
  {
    hide Step, Spares;
    PreferredStaysSince(p, run.earlier, id, peer);
    AlwaysSafe(run.earlier);
    PreferredStays(run.earlier.Now(), run.op, run.after, id, peer);
  }
}
