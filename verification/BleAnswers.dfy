// What the link core's operations answer and leave, in the links' own fields
// and the times of earlier operations; and where every event went.
module BleAnswers {
  import opened Options
  import opened Numbers
  import opened Octets
  import opened Reassembler
  import opened BleLinks
  import opened BleRuns
  import opened BleInbound

  // ---- Since when, and when last heard ---------------------------------------------

  // When the link was reserved, and when a packet of it last reached the event
  // buffer, or else it was reserved.
  function ReservedAt(run: Run, id: nat): nat {
    if run.Start? then 0
    else if run.op.Reserve? && run.op.reserved == Some(id) then run.op.now
    else ReservedAt(run.earlier, id)
  }

  function LastHeard(run: Run, id: nat): nat {
    if run.Start? then 0
    else if run.op.Reserve? && run.op.reserved == Some(id) then run.op.now
    else if run.op.Receive? && run.op.id == id && run.op.packets != [] then run.op.now
    else LastHeard(run.earlier, id)
  }

  lemma HeardIs(l: Link, chunk: seq<Byte>, now: nat)
    ensures var h := Hear(l, chunk, now); h.link.since == l.since && h.link.heard == if h.packets != [] then now else l.heard
  {
    hide Pushed;
  }

  lemma FreshIs(s: Node, op: Op, s': Node, id: nat)
    requires Step(s, op, s') && id !in s.links && id in s'.links
    ensures op.Reserve? && op.reserved == Some(id) && s'.links[id].since == op.now && s'.links[id].heard == op.now
    ensures s'.links[id].limit.None? && s'.links[id].peer == op.peer && s'.links[id].role == op.role
  {
    hide Hear, Expired, BackedOff, OneBackedOff, Blocked;
  }

  // A link's times are those.
  lemma {:induction false} TimesExactly(run: Run, id: nat)
    requires Possible(run) && id in run.Now().links
    ensures run.Now().links[id].since == ReservedAt(run, id) && run.Now().links[id].heard == LastHeard(run, id)
  {
    hide Step, Hear, Safe, Possible;
    StepNow(run);
    var s, op, s' := run.earlier.Now(), run.op, run.after;
    AlwaysSafe(run.earlier);
    if id in s.links {
      TimesExactly(run.earlier, id);
      SafeIds(run.earlier, id);
      if op.Reserve? && op.reserved.Some? { ReservedIsNew(s, op, s'); }
      if op.Receive? && op.id == id {
        ReceiveOnLink(s, op, s');
        HeardIs(s.links[id], op.chunk, op.now);
      } else {
        OthersLeave(s, op, s', id);
      }
    } else {
      FreshIs(s, op, s', id);
    }
  }

  lemma ReservedIsNew(s: Node, op: Op, s': Node)
    requires Step(s, op, s') && op.Reserve? && op.reserved.Some?
    ensures op.reserved.value == s.next + 1
  {
    hide Expired, BackedOff, Blocked;
  }

  // Due to be dropped: not ready 15 s after it was reserved, or unheard for 120 s.
  ghost predicate Due(run: Run, id: nat, now: nat) {
    && id in run.Now().links
    && ((run.Now().links[id].limit.None? && now > ReservedAt(run, id) + 15000) || now > LastHeard(run, id) + 120000)
  }

  lemma DueIs(run: Run, id: nat, now: nat)
    requires Possible(run) && id in run.Now().links
    ensures Expired(run.Now().links[id], now) <==> Due(run, id, now)
  {
    hide Possible;
    TimesExactly(run, id);
  }

  // An expiry drops exactly the links that are due, and leaves the rest alone.
  lemma ExpireExactly(run: Run)
    requires Possible(run) && run.Then? && run.op.Expire?
    ensures var links := run.earlier.Now().links;
            && (forall id :: id in run.after.links <==> id in links && !Due(run.earlier, id, run.op.now))
            && forall id :: id in run.after.links ==> run.after.links[id] == links[id]
  {
    hide Possible, BackedOff, Expired, Due;
    StepNow(run);
    forall id | id in run.earlier.Now().links ensures Expired(run.earlier.Now().links[id], run.op.now) <==> Due(run.earlier, id, run.op.now) {
      DueIs(run.earlier, id, run.op.now);
    }
  }

  // ---- Reserving ---------------------------------------------------------------------

  // Nothing but the peer's own backoff and a link with it stands in the way.
  ghost predicate Open(s: Node, peer: nat, role: Role, now: nat) {
    && peer != 0 && peer != s.local
    && (forall id :: id in s.links && s.links[id].peer == peer ==>
          s.links[id].role != role && (role.Central? <==> s.local < peer))
    && (role.Central? && peer in s.backoff && (forall id :: id in s.links ==> s.links[id].peer != peer) ==>
          now >= s.backoff[peer].until)
  }

  // The other links a reserve leaves.
  ghost function Others(run: Run, peer: nat, now: nat): set<nat> {
    set id | id in run.Now().links && run.Now().links[id].peer != peer && !Due(run, id, now)
  }

  lemma OpenIs(s: Node, peer: nat, role: Role, now: nat)
    requires Safe(s)
    ensures Open(s, peer, role, now) <==> !Blocked(s, peer, role, now)
  {
    hide QueueOk, BackoffOk;
    assert forall id :: id in s.links && s.links[id].peer == peer ==> HeldFor(s, peer, id);
    if Blocked(s, peer, role, now) && exists id :: HeldFor(s, peer, id) {
      var id :| HeldFor(s, peer, id);
      forall j | HeldFor(s, peer, j) ensures j == id { }
    }
  }

  // A reserve succeeds exactly when it is open, fewer than eight other links
  // stay, and an id is left; the peer's new link is then one not ready yet.
  lemma ReserveExactly(run: Run)
    requires Possible(run) && run.Then? && run.op.Reserve?
    ensures var s, s', op := run.earlier.Now(), run.after, run.op;
            var kept := Others(run.earlier, op.peer, op.now);
            && (op.reserved.Some? <==> Open(s, op.peer, op.role, op.now) && |kept| < 8 && s.next < U64_MAX)
            && (op.reserved.Some? ==>
                  && op.reserved == Some(s.next + 1) && s'.next == s.next + 1 && op.reserved.value in s'.links
                  && var l := s'.links[op.reserved.value]; l.peer == op.peer && l.role == op.role && l.limit.None? && l.queue == [])
            && (if Open(s, op.peer, op.role, op.now) then
                  && (forall id :: id in s'.links <==> id in kept || op.reserved == Some(id))
                  && forall id :: id in kept ==> s'.links[id] == s.links[id]
                else s' == s)
  {
    hide Possible, BackedOff, Expired, Due, Open, Blocked, Safe;
    StepNow(run);
    var s, op := run.earlier.Now(), run.op;
    AlwaysSafe(run.earlier);
    OpenIs(s, op.peer, op.role, op.now);
    KeptIs(run.earlier, op.peer, op.now);
    IdsBelow(run.earlier);
  }

  lemma IdsBelow(run: Run)
    requires Possible(run)
    ensures forall id :: id in run.Now().links ==> id <= run.Now().next
  {
    AlwaysSafe(run);
  }

  lemma KeptIs(run: Run, peer: nat, now: nat)
    requires Possible(run)
    ensures var kept := Live(WithoutPeer(run.Now().links, peer), now);
            && kept.Keys == Others(run, peer, now) && |kept| == |Others(run, peer, now)|
            && forall id :: id in kept ==> kept[id] == run.Now().links[id]
  {
    hide Possible, Expired, Due;
    var kept := Live(WithoutPeer(run.Now().links, peer), now);
    forall id | id in run.Now().links ensures Expired(run.Now().links[id], now) <==> Due(run, id, now) { DueIs(run, id, now); }
    assert |kept| == |kept.Keys|;
  }

  // ---- Ready, and sending ------------------------------------------------------------

  // A write size makes a link ready, at most 512, and ends the peer's backoff.
  lemma ReadyExactly(s: Node, id: nat, limit: nat, ok: bool, s': Node)
    requires Step(s, Ready(id, limit, ok), s')
    ensures ok <==> id in s.links && limit > 0
    ensures ok ==> id in s'.links && s'.links[id] == s.links[id].(limit := Some(if limit <= 512 then limit else 512))
    ensures ok ==> forall p :: p in s'.backoff <==> p in s.backoff && p != s.links[id].peer
    ensures !ok ==> s' == s
  {
  }

  // A packet is accepted exactly when the link is ready, it fits a write, and
  // the queue then holds at most 64 packets and 16384 bytes.
  lemma EnqueueExactly(s: Node, id: nat, bytes: seq<Byte>, ok: bool, s': Node)
    requires Safe(s) && Step(s, Enqueue(id, bytes, ok), s')
    ensures ok <==>
              && id in s.links && s.links[id].limit.Some? && 1 <= |bytes| <= s.links[id].limit.value
              && |s.links[id].queue + [bytes]| <= 64 && SumLen(s.links[id].queue + [bytes]) <= 16384
  {
    if id in s.links { SumLenBack(s.links[id].queue, bytes); }
  }

  // A write takes the oldest packet, exactly if there is one.
  lemma TakeExactly(s: Node, id: nat, taken: Option<seq<Byte>>, s': Node)
    requires Safe(s) && Step(s, TakeWrite(id, taken), s')
    ensures taken.Some? <==> id in s.links && s.links[id].queue != []
    ensures taken.Some? ==> id in s'.links && [taken.value] + s'.links[id].queue == s.links[id].queue
    ensures taken.None? ==> s' == s
  {
  }

  // A removed link is gone, and no other.
  lemma RemoveExactly(s: Node, id: nat, failed: bool, now: nat, s': Node)
    requires Step(s, Remove(id, failed, now), s')
    ensures forall j :: j in s'.links <==> j in s.links && j != id
    ensures forall j :: j in s'.links ==> s'.links[j] == s.links[j]
    ensures !(id in s.links && failed && s.links[id].role.Central?) ==> s'.backoff == s.backoff
  {
  }

  // ---- Backoff ----------------------------------------------------------------------

  // Failures of one peer, at these times, while the table has room.
  ghost predicate FailsAt(b: map<nat, Wait>, peer: nat, times: seq<nat>, b': map<nat, Wait>) {
    if times == [] then b' == b
    else
      var n := |times| - 1;
      exists b1 :: FailsAt(b, peer, times[..n], b1) && |b1| < 128 && OneBackedOff(b1, peer, times[n], b')
  }

  // A peer not held back yet waits 30 s, then twice as long after each failure,
  // up to 300 s.
  lemma {:induction false} WaitsDouble(b: map<nat, Wait>, peer: nat, times: seq<nat>, b': map<nat, Wait>)
    requires peer !in b && times != [] && FailsAt(b, peer, times, b')
    ensures peer in b'
    ensures b'[peer].delay == (match |times| case 1 => 30000 case 2 => 60000 case 3 => 120000 case 4 => 240000 case _ => 300000)
    ensures b'[peer].until == Saturated(times[|times| - 1] + b'[peer].delay, U64_MAX)
    decreases |times|
  {
    var n := |times| - 1;
    var b1 :| FailsAt(b, peer, times[..n], b1) && |b1| < 128 && OneBackedOff(b1, peer, times[n], b');
    if n > 0 { WaitsDouble(b, peer, times[..n], b1); }
  }

  // A failed outgoing link keeps its peer from being dialled for 30 s.
  lemma HeldOff(s: Node, id: nat, now: nat, s1: Node, later: nat, r: Option<nat>, s2: Node)
    requires Safe(s) && id in s.links && s.links[id].role.Central? && s.links[id].peer !in s.backoff && |s.backoff| < 128
    requires Step(s, Remove(id, true, now), s1) && Step(s1, Reserve(s.links[id].peer, Central, later, r), s2)
    requires now + 30000 <= U64_MAX && later < now + 30000
    ensures r.None? && s2 == s1
  {
    hide QueueOk, BackoffOk;
    var peer := s.links[id].peer;
    assert peer in s1.backoff && s1.backoff[peer].until == now + 30000;
    assert forall j :: j in s1.links ==> j in s.links && j != id && s1.links[j] == s.links[j];
    assert forall j :: !HeldFor(s1, peer, j);
  }

  // ---- Where every event went ----------------------------------------------------------

  function Polled(run: Run): seq<Event> {
    if run.Start? then [] else Polled(run.earlier) + if run.op.Poll? then run.op.events else []
  }

  // How many a clearing took out.
  function Cleared(run: Run): nat {
    if run.Start? then 0 else Cleared(run.earlier) + if run.op.ClearLinks? then |run.earlier.Now().events| else 0
  }

  // One operation: a poll takes the oldest 32; what comes in is added, and only
  // what is over 256 then gives way.
  lemma EventsExactly(s: Node, op: Op, s': Node)
    requires Step(s, op, s') && |s.events| <= 256
    ensures op.Poll? ==> op.events + s'.events == s.events && |op.events| == Min(32, |s.events|)
    ensures op.Receive? ==>
              var all := s.events + EventsOf(op.id, op.packets);
              && s'.events == (if |all| <= 256 then all else all[|all| - 256..])
              && s'.droppedEvents == Saturated(s.droppedEvents + if |all| <= 256 then 0 else |all| - 256, U64_MAX)
    ensures !op.Poll? && !op.Receive? && !op.ClearLinks? ==> s'.events == s.events
    ensures !op.Receive? ==> s'.droppedEvents == s.droppedEvents
  {
    hide Hear, BackedOff, OneBackedOff, Blocked, Expired, Accepts;
    if op.Receive? && op.id !in s.links { assert s.events + EventsOf(op.id, []) == s.events; }
  }

  // Every event was polled, is still here, was counted as dropped, or cleared.
  lemma {:induction false} EventsAccounted(run: Run)
    requires Possible(run) && run.Now().droppedEvents < U64_MAX
    ensures |AllReached(run)| == |Polled(run)| + |run.Now().events| + run.Now().droppedEvents + Cleared(run)
  {
    hide Step, Safe, Possible, EventsOf;
    if run.Then? {
      StepNow(run);
      EventsBound(run.earlier);
      EventsExactly(run.earlier.Now(), run.op, run.after);
      if run.op.ClearLinks? { ClearedNow(run.earlier.Now(), run.op, run.after); }
      EventsAccounted(run.earlier);
    }
  }

  lemma EventsBound(run: Run)
    requires Possible(run)
    ensures |run.Now().events| <= 256
  {
    AlwaysSafe(run);
  }

  lemma ClearedNow(s: Node, op: Op, s': Node)
    requires Step(s, op, s') && op.ClearLinks?
    ensures s'.events == [] && s'.links == map[]
  {
  }
}
