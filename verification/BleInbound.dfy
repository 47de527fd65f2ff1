// What comes in on a link: exactly when a notification is refused, and that on
// a link whose peer keeps to the limits the packets sent are the packets that
// reach the event buffer.
module BleInbound {
  import opened Options
  import opened Numbers
  import opened Octets
  import opened Reassembler
  import opened Framing
  import opened WireFormat
  import opened BleLinks
  import opened BleRuns

  // ---- Chunks one after another ------------------------------------------------------

  // The stream's state and all packets after these chunks; none if one is refused.
  function Fold(s: Stream, chunks: seq<Chunk>): Option<(Stream, seq<seq<Byte>>)> {
    if chunks == [] then Some((s, []))
    else
      var n := |chunks| - 1;
      var before := Fold(s, chunks[..n]);
      if before.None? then None
      else
        var (t, out) := Pushed(before.value.0, chunks[n].data, chunks[n].at);
        if out.None? then None else Some((t, before.value.1 + out.value))
  }

  lemma FoldBack(s: Stream, chunks: seq<Chunk>, c: Chunk)
    ensures Fold(s, chunks + [c]) ==
            if Fold(s, chunks).None? then None
            else
              var (t, out) := Pushed(Fold(s, chunks).value.0, c.data, c.at);
              if out.None? then None else Some((t, Fold(s, chunks).value.1 + out.value))
  {
    assert (chunks + [c])[..|chunks|] == chunks;
  }

  lemma {:induction false} FoldFront(s: Stream, c: Chunk, chunks: seq<Chunk>)
    ensures Fold(s, [c] + chunks) ==
            (var (t, out) := Pushed(s, c.data, c.at);
             if out.None? then None
             else
               var more := Fold(t, chunks);
               if more.None? then None else Some((more.value.0, out.value + more.value.1)))
    decreases |chunks|
  {
    hide Pushed;
    var (t, out) := Pushed(s, c.data, c.at);
    if chunks == [] {
      assert [c] + chunks == [c] && [c][..0] == [];
      assert Fold(s, [c][..0]) == Some((s, []));
      if out.Some? { assert [] + out.value == out.value + []; }
    } else {
      var n := |chunks| - 1;
      assert chunks == chunks[..n] + [chunks[n]];
      assert [c] + chunks == [c] + chunks[..n] + [chunks[n]];
      FoldFront(s, c, chunks[..n]);
      FoldBack(s, [c] + chunks[..n], chunks[n]);
      if out.Some? && Fold(t, chunks[..n]).Some? {
        var mid := Fold(t, chunks[..n]).value;
        var last := Pushed(mid.0, chunks[n].data, chunks[n].at);
        if last.1.Some? { assert out.value + mid.1 + last.1.value == out.value + (mid.1 + last.1.value); }
      }
    }
  }

  lemma {:induction false} FoldIsDeliver(s: Stream, chunks: seq<Chunk>)
    ensures Deliver(s, chunks) == if Fold(s, chunks).None? then None else Some(Fold(s, chunks).value.1)
    decreases |chunks|
  {
    hide Pushed;
    if chunks != [] {
      FoldFront(s, chunks[0], chunks[1..]);
      assert [chunks[0]] + chunks[1..] == chunks;
      FoldIsDeliver(Pushed(s, chunks[0].data, chunks[0].at).0, chunks[1..]);
    }
  }

  // ---- A link whose peer keeps to the limits -------------------------------------------

  // Since p: the notifications on the link, and the packets of it that reached
  // the event buffer.
  ghost function HeardSince(p: Run, run: Run, id: nat): seq<Chunk> {
    if p == run || run.Start? then []
    else HeardSince(p, run.earlier, id) + if run.op.Receive? && run.op.id == id then [Chunk(run.op.chunk, run.op.now)] else []
  }

  ghost function GotSince(p: Run, run: Run, id: nat): seq<seq<Byte>> {
    if p == run || run.Start? then []
    else GotSince(p, run.earlier, id) + if run.op.Receive? && run.op.id == id then run.op.packets else []
  }

  ghost predicate LiveSince(p: Run, run: Run, id: nat) {
    id in run.Now().links && (p == run || (run.Then? && LiveSince(p, run.earlier, id)))
  }

  // A link just made ready.
  ghost predicate Unheard(p: Run, id: nat) {
    && id in p.Now().links
    && var l := p.Now().links[id]; l.limit.Some? && l.input == EMPTY && l.chunks == 0 && l.bytes == 0 && l.packets == 0
  }

  // Of the link, since p and in that second of the clock: notifications, their
  // bytes, and the packets they complete.
  ghost function ChunksIn(p: Run, run: Run, id: nat, second: nat): nat {
    if p == run || run.Start? then 0
    else ChunksIn(p, run.earlier, id, second) + if HeardThen(run, id, second) then 1 else 0
  }

  ghost function BytesIn(p: Run, run: Run, id: nat, second: nat): nat {
    if p == run || run.Start? then 0
    else BytesIn(p, run.earlier, id, second) + if HeardThen(run, id, second) then |run.op.chunk| else 0
  }

  ghost function CompletedIn(p: Run, run: Run, id: nat, second: nat): int {
    if p == run || run.Start? then 0
    else CompletedIn(p, run.earlier, id, second)
         + if HeardThen(run, id, second) then CompletedBy(p, run, id) - CompletedBy(p, run.earlier, id) else 0
  }

  ghost function CompletedBy(p: Run, run: Run, id: nat): nat {
    var all := Fold(EMPTY, HeardSince(p, run, id));
    if all.Some? then |all.value.1| else 0
  }

  ghost predicate HeardThen(run: Run, id: nat, second: nat)
    requires run.Then?
  {
    run.op.Receive? && run.op.id == id && run.op.now / 1000 == second
  }

  // Each notification has 1 to 4096 bytes, and no second more than 256 of them,
  // 16384 bytes, and 40 packets.
  ghost predicate WithinLimits(p: Run, run: Run, id: nat) {
    p == run ||
    (run.Then? && WithinLimits(p, run.earlier, id) &&
     (run.op.Receive? && run.op.id == id ==>
        && 1 <= |run.op.chunk| <= 4096
        && ChunksIn(p, run, id, run.op.now / 1000) <= 256
        && BytesIn(p, run, id, run.op.now / 1000) <= 16384
        && CompletedIn(p, run, id, run.op.now / 1000) <= 40))
  }

  ghost predicate InStep(p: Run, run: Run, id: nat) {
    && id in run.Now().links
    && var l := run.Now().links[id];
       && l.limit.Some?
       && Fold(EMPTY, HeardSince(p, run, id)) == Some((l.input, GotSince(p, run, id)))
       && l.chunks <= ChunksIn(p, run, id, l.second) && l.bytes <= BytesIn(p, run, id, l.second)
       && l.packets <= CompletedIn(p, run, id, l.second)
  }

  // What the other operations leave of a link.
  lemma OthersLeave(s: Node, op: Op, s': Node, id: nat)
    requires Safe(s) && Step(s, op, s') && id in s.links && id in s'.links && !(op.Receive? && op.id == id)
    ensures var l, l' := s.links[id], s'.links[id];
            && l'.input == l.input && l'.second == l.second && l'.chunks == l.chunks && l'.bytes == l.bytes && l'.packets == l.packets
            && (l.limit.Some? ==> l'.limit.Some?) && l'.since == l.since && l'.heard == l.heard && l'.peer == l.peer && l'.role == l.role
  {
    hide Hear, Expired, BackedOff, OneBackedOff, Blocked, QueueOk, BackoffOk, Newest, EventsOf, Accepts, OnePerPeer, Reserved, Safe;
    if op.Reserve? { ReservedLeaves(s, op, s', id); }
  }

  lemma ReservedLeaves(s: Node, op: Op, s': Node, id: nat)
    requires Safe(s) && op.Reserve? && Step(s, op, s') && id in s.links && id in s'.links
    ensures s'.links[id] == s.links[id]
  {
    hide Expired, BackedOff, Blocked, QueueOk, BackoffOk, OnePerPeer;
  }

  // A notification within the limits, in full.
  lemma WantedHear(l: Link, chunk: seq<Byte>, now: nat, chunks: nat, bytes: nat, packets: nat)
    requires l.limit.Some? && 1 <= |chunk| <= 4096
    requires chunks == (if l.second == now / 1000 then l.chunks else 0) && chunks < 256
    requires bytes == (if l.second == now / 1000 then l.bytes else 0) && bytes + |chunk| <= 16384
    requires packets == (if l.second == now / 1000 then l.packets else 0)
    ensures var (t, out) := Pushed(l.input, chunk, now);
            var h := Hear(l, chunk, now);
            && h.link.second == now / 1000 && h.link.limit == l.limit && h.link.chunks == chunks + 1 && h.link.bytes == bytes + |chunk|
            && (if out.None? then h.link.input == t && h.packets == [] && h.refused == 1 && h.link.packets == packets
                else
                  && h.link.input == t && h.link.packets == Saturated(packets + |out.value|, U32_MAX)
                  && h.packets == out.value[..Min(40 - Min(packets, 40), |out.value|)]
                  && h.refused == |out.value| - |h.packets|)
  {
    hide Pushed;
  }

  lemma OneHeard(p: Run, run: Run, id: nat)
    requires Possible(run) && p != run && run.Then? && run.op.Receive? && run.op.id == id && InStep(p, run.earlier, id)
    requires WithinLimits(p, run, id) && Fold(EMPTY, HeardSince(p, run, id)).Some?
    ensures InStep(p, run, id)
  {
    hide Hear, Pushed, Fold, Step, Safe, Possible, WithinLimits;
    var s, l, now := run.earlier.Now(), run.earlier.Now().links[id], run.op.now;
    LimitsNow(p, run, id);
    StepNow(run);
    ReceiveOnLink(s, run.op, run.after);
    var same := l.second == now / 1000;
    var chunks, bytes, packets := if same then l.chunks else 0, if same then l.bytes else 0, if same then l.packets else 0;
    CountedBefore(p, run.earlier, id, now / 1000);
    FoldBack(EMPTY, HeardSince(p, run.earlier, id), Chunk(run.op.chunk, now));
    WantedHear(l, run.op.chunk, now, chunks, bytes, packets);
    var out := Pushed(l.input, run.op.chunk, now).1.value;
    assert GotSince(p, run, id) == GotSince(p, run.earlier, id) + run.op.packets;
    assert CompletedIn(p, run, id, now / 1000) == CompletedIn(p, run.earlier, id, now / 1000) + |out|;
    assert out[..|out|] == out;
  }

  lemma StepNow(run: Run)
    requires Possible(run) && run.Then?
    ensures Possible(run.earlier) && Step(run.earlier.Now(), run.op, run.after)
  {
  }

  lemma LimitsNow(p: Run, run: Run, id: nat)
    requires WithinLimits(p, run, id) && p != run && run.op.Receive? && run.op.id == id
    ensures 1 <= |run.op.chunk| <= 4096 && ChunksIn(p, run, id, run.op.now / 1000) <= 256
    ensures BytesIn(p, run, id, run.op.now / 1000) <= 16384 && CompletedIn(p, run, id, run.op.now / 1000) <= 40
  {
  }

  // Packets never become fewer.
  lemma {:induction false} CountedBefore(p: Run, run: Run, id: nat, second: nat)
    requires Fold(EMPTY, HeardSince(p, run, id)).Some?
    ensures CompletedIn(p, run, id, second) >= 0
  {
    hide Pushed, Fold;
    if p != run && run.Then? {
      if run.op.Receive? && run.op.id == id {
        FoldBack(EMPTY, HeardSince(p, run.earlier, id), Chunk(run.op.chunk, run.op.now));
      } else {
        assert HeardSince(p, run, id) == HeardSince(p, run.earlier, id);
      }
      CountedBefore(p, run.earlier, id, second);
    }
  }

  lemma {:induction false} AlwaysInStep(p: Run, run: Run, id: nat)
    requires Possible(run) && LiveSince(p, run, id) && Unheard(p, id) && WithinLimits(p, run, id)
    requires Fold(EMPTY, HeardSince(p, run, id)).Some?
    ensures InStep(p, run, id)
  {
    hide Step, Safe, Pushed, Possible;
    if p == run { return; }
    StepNow(run);
    var s, op := run.earlier.Now(), run.op;
    if op.Receive? && op.id == id {
      FoldBack(EMPTY, HeardSince(p, run.earlier, id), Chunk(op.chunk, op.now));
      AlwaysInStep(p, run.earlier, id);
      OneHeard(p, run, id);
    } else {
      assert HeardSince(p, run, id) == HeardSince(p, run.earlier, id) && GotSince(p, run, id) == GotSince(p, run.earlier, id);
      AlwaysInStep(p, run.earlier, id);
      AlwaysSafe(run.earlier);
      OthersLeave(s, op, run.after, id);
    }
  }

  // From a link just made ready on, and while its peer keeps to the limits: the
  // packets that reach the event buffer are exactly those its notifications
  // make, as long as none overflows the buffer or is no packet's.
  lemma DeliveredExactly(p: Run, run: Run, id: nat)
    requires Possible(run) && LiveSince(p, run, id) && Unheard(p, id) && WithinLimits(p, run, id)
    requires Deliver(EMPTY, HeardSince(p, run, id)).Some?
    ensures Deliver(EMPTY, HeardSince(p, run, id)) == Some(GotSince(p, run, id))
  {
    hide Possible, Deliver, Fold, WithinLimits;
    FoldIsDeliver(EMPTY, HeardSince(p, run, id));
    AlwaysInStep(p, run, id);
  }

  // So what the peer sends is what is received.
  lemma PacketsGetThrough(p: Run, run: Run, id: nat, sent: seq<Sent>)
    requires Possible(run) && LiveSince(p, run, id) && Unheard(p, id) && WithinLimits(p, run, id)
    requires (forall s :: s in sent ==> s.Legal()) && Joined(HeardSince(p, run, id)) == OnAir(sent)
    requires Prompt(HeardSince(p, run, id)) && Roomy(Items(sent), HeardSince(p, run, id), 0)
    ensures GotSince(p, run, id) == PacketsOf(sent)
  {
    hide Possible, WithinLimits, Deliver, Roomy, Prompt;
    SentArrive(sent, HeardSince(p, run, id));
    DeliveredExactly(p, run, id);
  }

  // ---- When a notification is refused ----------------------------------------------------

  // Notifications the link got in that second, and their bytes.
  function Noted(run: Run, id: nat, second: nat): nat {
    if run.Start? then 0
    else Noted(run.earlier, id, second)
         + if run.op.Receive? && run.op.id == id && id in run.earlier.Now().links && run.op.now / 1000 == second then 1 else 0
  }

  function NotedBytes(run: Run, id: nat, second: nat): nat {
    if run.Start? then 0
    else NotedBytes(run.earlier, id, second)
         + if run.op.Receive? && run.op.id == id && id in run.earlier.Now().links && run.op.now / 1000 == second then |run.op.chunk| else 0
  }

  // The link's counters are what was noted in its second.
  ghost predicate Counters(run: Run, id: nat, second: nat) {
    && (id in run.Now().links ==>
          var l := run.Now().links[id];
          && l.second <= Clock(run) / 1000
          && (second > l.second ==> Noted(run, id, second) == 0 && NotedBytes(run, id, second) == 0 && Reached(run, id, second) == 0)
          && (second == l.second ==>
                && l.chunks == Saturated(Noted(run, id, second), U32_MAX) && l.bytes == Saturated(NotedBytes(run, id, second), U64_MAX)
                && Reached(run, id, second) == Min(l.packets, 40)))
    && (id > run.Now().next ==> Noted(run, id, second) == 0 && NotedBytes(run, id, second) == 0 && Reached(run, id, second) == 0)
  }

  // A notification, wanted or not.
  lemma HearExactly(l: Link, chunk: seq<Byte>, now: nat, noted: nat, bytes: nat)
    requires Saturated(noted, U32_MAX) == Saturated((if l.second == now / 1000 then l.chunks else 0) + 1, U32_MAX)
    requires Saturated(bytes, U64_MAX) == Saturated((if l.second == now / 1000 then l.bytes else 0) + |chunk|, U64_MAX)
    ensures var (t, out) := Pushed(l.input, chunk, now);
            var packets := if l.second == now / 1000 then l.packets else 0;
            var h := Hear(l, chunk, now);
            && h.link.second == now / 1000 && h.link.chunks == Saturated(noted, U32_MAX) && h.link.bytes == Saturated(bytes, U64_MAX)
            && if l.limit.None? || !(1 <= |chunk| <= 4096) || noted > 256 || bytes > 16384 || out.None?
               then h.link.input == EMPTY && h.packets == [] && h.refused == 1 && h.link.packets == packets
               else
                 && h.link.input == t && h.link.packets == Saturated(packets + |out.value|, U32_MAX)
                 && h.packets == out.value[..Min(40 - Min(packets, 40), |out.value|)] && h.refused == |out.value| - |h.packets|
  {
    hide FeedAll;
  }

  lemma NewLinkCounters(s: Node, op: Op, s': Node, id: nat)
    requires Step(s, op, s') && id !in s.links && id in s'.links
    ensures op.Reserve? && id > s.next && s'.links[id].second == op.now / 1000
    ensures s'.links[id].chunks == 0 && s'.links[id].bytes == 0 && s'.links[id].packets == 0
  {
    hide Hear, Expired, BackedOff, OneBackedOff, Blocked;
  }

  lemma HeardCounters(run: Run, id: nat, second: nat)
    requires Possible(run) && BleRuns.Timely(run) && run.Then? && run.op.Receive? && run.op.id == id && id in run.earlier.Now().links
    requires Counters(run.earlier, id, second) && Counters(run.earlier, id, run.op.now / 1000)
    requires id in run.earlier.Now().links ==> id <= run.earlier.Now().next
    ensures Counters(run, id, second)
  {
    hide Hear, Pushed, Step, Possible;
    StepNow(run);
    var s, l, now := run.earlier.Now(), run.earlier.Now().links[id], run.op.now;
    ReceiveOnLink(s, run.op, run.after);
    StepOnlyAddsNext(s, run.op, run.after);
    HearExactly(l, run.op.chunk, now, Noted(run, id, now / 1000), NotedBytes(run, id, now / 1000));
  }

  lemma {:induction false} AlwaysCounters(run: Run, id: nat, second: nat)
    requires Possible(run) && BleRuns.Timely(run)
    ensures Counters(run, id, second)
  {
    if run.Then? {
      hide Step, Hear, Safe, Possible;
      StepNow(run);
      var s, op, s' := run.earlier.Now(), run.op, run.after;
      AlwaysCounters(run.earlier, id, second);
      StepOnlyAddsNext(s, op, s');
      SafeIds(run.earlier, id);
      if op.Receive? && op.id == id && id in s.links {
        AlwaysCounters(run.earlier, id, op.now / 1000);
        HeardCounters(run, id, second);
      } else {
        if op.Receive? && op.id == id { ReceiveOnLink(s, op, s'); }
        if id in s'.links && id in s.links {
          AlwaysSafe(run.earlier);
          OthersLeave(s, op, s', id);
        } else if id in s'.links {
          NewLinkCounters(s, op, s', id);
        }
      }
    }
  }

  // A notification is refused exactly when its link is not ready, it is empty
  // or over 4096 bytes, it is more than the 256th or passes the 16384th byte of
  // its second, or the reassembler refuses it. Then it is counted once, and the
  // unfinished packet is dropped. Otherwise the packets it completes reach the
  // event buffer, the first of them up to the 40th of the second; the rest are
  // counted.
  lemma NotificationExactly(run: Run)
    requires Possible(run) && BleRuns.Timely(run) && run.Then? && run.op.Receive? && run.op.id in run.earlier.Now().links
    ensures run.op.id in run.after.links
    ensures var id, l, now := run.op.id, run.earlier.Now().links[run.op.id], run.op.now;
            var (t, out) := Pushed(l.input, run.op.chunk, now);
            var dropped := run.after.droppedInput;
            if l.limit.None? || !(1 <= |run.op.chunk| <= 4096) || Noted(run, id, now / 1000) > 256
               || NotedBytes(run, id, now / 1000) > 16384 || out.None?
            then run.op.packets == [] && run.after.links[id].input == EMPTY && dropped == Saturated(run.earlier.Now().droppedInput + 1, U64_MAX)
            else
              && run.op.packets == out.value[..Min(SaturatingSub(40, Reached(run.earlier, id, now / 1000)), |out.value|)]
              && run.after.links[id].input == t
              && dropped == Saturated(run.earlier.Now().droppedInput + (|out.value| - |run.op.packets|), U64_MAX)
  {
    hide Hear, Pushed, Step, Possible, EventsOf, Newest;
    StepNow(run);
    var s, id, now := run.earlier.Now(), run.op.id, run.op.now;
    AlwaysCounters(run.earlier, id, now / 1000);
    RateBound(run.earlier, id, now / 1000);
    ReceiveOnLink(s, run.op, run.after);
    HearExactly(s.links[id], run.op.chunk, now, Noted(run, id, now / 1000), NotedBytes(run, id, now / 1000));
    DroppedStep(s, run.op, run.after);
  }

  lemma DroppedStep(s: Node, op: Op, s': Node)
    requires Step(s, op, s') && op.Receive? && op.id in s.links
    ensures s'.droppedInput == Saturated(s.droppedInput + Hear(s.links[op.id], op.chunk, op.now).refused, U64_MAX)
  {
    hide Hear;
  }
}
