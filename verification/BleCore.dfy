// The link core: the tables its methods change, one recorded step of a run per
// operation.
module BleCore {
  import opened Options
  import opened Numbers
  import opened Octets
  import opened Reassembler
  import opened BleLinks
  import opened BleRuns

  // The entry that may be retried first.
  method Soonest(b: map<nat, Wait>) returns (victim: nat)
    requires b != map[]
    ensures SoonestIn(b, victim)
  {
    var rest := b.Keys;
    victim :| victim in rest;
    while rest != {}
      invariant rest <= b.Keys && victim in b
      invariant forall p :: p in b && p !in rest ==> b[victim].until <= b[p].until
      decreases |rest|
    {
      var p :| p in rest;
      if b[p].until < b[victim].until { victim := p; }
      rest := rest - {p};
    }
  }

  lemma OneMoreFailure(b: map<nat, Wait>, failed: set<nat>, now: nat, b1: map<nat, Wait>, peer: nat, b2: map<nat, Wait>)
    requires peer !in failed && BackedOff(b, failed, now, b1) && OneBackedOff(b1, peer, now, b2)
    ensures BackedOff(b, failed + {peer}, now, b2)
  {
    hide OneBackedOff;
    var order :| Orders(order, failed) && FailedInOrder(b, order, now, b1);
    assert (order + [peer])[..|order|] == order;
    assert Orders(order + [peer], failed + {peer});
    assert FailedInOrder(b, order + [peer], now, b2);
  }

  lemma NoFailure(b: map<nat, Wait>, now: nat)
    ensures BackedOff(b, {}, now, b)
  {
    assert Orders([], {}) && FailedInOrder(b, [], now, b);
  }

  lemma NewestStep(events: seq<Event>, e: Event)
    ensures |Newest(events + [e])| <= |events + [e]|
    ensures Newest(events + [e]) == (if |Newest(events)| >= MAX_EVENTS then Newest(events)[1..] else Newest(events)) + [e]
    ensures |events + [e]| - |Newest(events + [e])| ==
            |events| - |Newest(events)| + if |Newest(events)| >= MAX_EVENTS then 1 else 0
  {
  }

  lemma EventsOfStep(id: nat, out: seq<seq<Byte>>, k: nat)
    requires k < |out|
    ensures EventsOf(id, out[..k + 1]) == EventsOf(id, out[..k]) + [Event(id, out[k])]
  {
  }

  class Core {
    var local: nat
    var next: nat
    var links: map<nat, Link>
    var backoff: map<nat, Wait>
    var events: seq<Event>
    var droppedEvents: U64
    var droppedInput: U64
    ghost var run: Run

    function State(): Node
      reads this
    {
      Node(local, next, links, backoff, events, droppedEvents, droppedInput)
    }

    ghost predicate Valid()
      reads this
    {
      Possible(run) && run.Now() == State()
    }

    constructor ()
      ensures Valid() && run == BleRuns.Start
    {
      local, next, links, backoff, events, droppedEvents, droppedInput := 0, 0, map[], map[], [], 0, 0;
      run := BleRuns.Start;
    }

    method SetLocal(address: nat)
      requires Valid()
      modifies this`local, this`run
      ensures Valid() && run == Then(old(run), Op.SetLocal(address), State())
      ensures Step(old(State()), Op.SetLocal(address), State())
    {
      local := address;
      run := Then(run, Op.SetLocal(address), State());
    }

    // Takes the link out, and after a failed outgoing one holds its peer back.
    method Drop(id: nat, failed: bool, now: nat)
      modifies this`links, this`backoff
      ensures links == old(links) - {id}
      ensures if id in old(links) && failed && old(links)[id].role == Central
              then OneBackedOff(old(backoff), old(links)[id].peer, now, backoff)
              else backoff == old(backoff)
    {
      hide SoonestIn;
      if id in links {
        var link := links[id];
        links := links - {id};
        if failed && link.role == Central {
          var delay := Delay(backoff, link.peer);
          if |backoff| >= MAX_BACKOFF && link.peer !in backoff {
            var victim := Soonest(backoff);
            backoff := backoff - {victim};
          }
          backoff := backoff[link.peer := Penalty(now, delay)];
        }
      }
    }

    // Drops every link whose setup or silence has lasted too long.
    method Sweep(now: nat)
      requires OnePerPeer(links)
      modifies this`links, this`backoff
      ensures links == Live(old(links), now)
      ensures BackedOff(old(backoff), FailedPeers(old(links), now), now, backoff)
    {
      hide BackedOff, OneBackedOff, Expired, OnePerPeer, StillThere, FailedSoFar;
      ghost var was := links;
      var expired := set id | id in links && Expired(links[id], now);
      SweepStarts(was, expired, now);
      NoFailure(backoff, now);
      while expired != {}
        invariant forall id :: id in expired ==> id in was && Expired(was[id], now)
        invariant links == StillThere(was, expired, now)
        invariant BackedOff(old(backoff), FailedSoFar(was, expired, now), now, backoff)
        decreases |expired|
      {
        var id :| id in expired;
        ghost var before := backoff;
        OneSwept(was, expired, id, now);
        Drop(id, true, now);
        if was[id].role == Central {
          OneMoreFailure(old(backoff), FailedSoFar(was, expired, now), now, before, was[id].peer, backoff);
        }
        expired := expired - {id};
      }
      SweepEnds(was, now);
    }

    // Of the expired links, those in [expired] still have their turn.
    ghost function StillThere(was: map<nat, Link>, expired: set<nat>, now: nat): map<nat, Link> {
      map id | id in was && (id in expired || !Expired(was[id], now)) :: was[id]
    }

    ghost function FailedSoFar(was: map<nat, Link>, expired: set<nat>, now: nat): set<nat> {
      set id | id in was && id !in expired && Expired(was[id], now) && was[id].role == Central :: was[id].peer
    }

    lemma SweepStarts(was: map<nat, Link>, expired: set<nat>, now: nat)
      requires forall id :: id in was && Expired(was[id], now) ==> id in expired
      ensures StillThere(was, expired, now) == was && FailedSoFar(was, expired, now) == {}
    {
    }

    lemma OneSwept(was: map<nat, Link>, expired: set<nat>, id: nat, now: nat)
      requires OnePerPeer(was) && id in expired && id in was && Expired(was[id], now)
      ensures var there := StillThere(was, expired, now);
              id in there && there[id] == was[id] && StillThere(was, expired - {id}, now) == there - {id}
      ensures var failed := FailedSoFar(was, expired, now);
              && was[id].peer !in failed
              && FailedSoFar(was, expired - {id}, now) == failed + if was[id].role == Central then {was[id].peer} else {}
    {
      hide Expired;
    }

    lemma SweepEnds(was: map<nat, Link>, now: nat)
      ensures StillThere(was, {}, now) == Live(was, now) && FailedSoFar(was, {}, now) == FailedPeers(was, now)
    {
      hide Expired;
    }

    method Expire(now: nat)
      requires Valid()
      modifies this`links, this`backoff, this`run
      ensures Valid() && run == Then(old(run), Op.Expire(now), State())
      ensures Step(old(State()), Op.Expire(now), State())
    {
      AlwaysSafe(run);
      Sweep(now);
      run := Then(run, Op.Expire(now), State());
    }

    method Remove(id: nat, failed: bool, now: nat)
      requires Valid()
      modifies this`links, this`backoff, this`run
      ensures Valid() && run == Then(old(run), Op.Remove(id, failed, now), State())
      ensures Step(old(State()), Op.Remove(id, failed, now), State())
    {
      Drop(id, failed, now);
      run := Then(run, Op.Remove(id, failed, now), State());
    }

    method Reserve(peer: nat, role: Role, now: nat) returns (id: Option<nat>)
      requires Valid()
      modifies this`next, this`links, this`backoff, this`run
      ensures Valid() && run == Then(old(run), Op.Reserve(peer, role, now, id), State())
      ensures Step(old(State()), Op.Reserve(peer, role, now, id), State())
    {
      AlwaysSafe(run);
      id := TryReserve(peer, role, now);
      run := Then(run, Op.Reserve(peer, role, now, id), State());
    }

    method TryReserve(peer: nat, role: Role, now: nat) returns (id: Option<nat>)
      requires Safe(State())
      modifies this`next, this`links, this`backoff
      ensures Reserved(old(State()), peer, role, now, id, State())
    {
      hide BackedOff, Expired, QueueOk, BackoffOk, Safe, OnePerPeer, WithoutPeer, Live, FailedPeers, Blocked;
      SafeLinks();
      if peer == local || peer == 0 {
        RefusedNow(State(), peer, role, now);
        return None;
      }
      var crossed := LinkTo(peer);
      if crossed.Some? {
        OnlyOne(State(), peer, crossed.value, role, now);
        if links[crossed.value].role == role || role != Preferred(local, peer) { return None; }
        Drop(crossed.value, false, now);
      } else {
        NoneHeld(State(), peer, role, now);
        if role == Central && peer in backoff && now < backoff[peer].until { return None; }
      }
      OnePerPeerKept(old(links), peer);
      Sweep(now);
      if |links| >= MAX_LINKS { return None; }
      if next == U64_MAX { return None; }
      next := next + 1;
      links := links[next := FreshLink(peer, role, now)];
      id := Some(next);
    }

    method LinkTo(peer: nat) returns (id: Option<nat>)
      ensures id.Some? ==> HeldFor(State(), peer, id.value)
      ensures id.None? ==> forall i :: i in links ==> links[i].peer != peer
    {
      var there := set i | i in links && links[i].peer == peer;
      assert forall i :: i in links && links[i].peer == peer ==> i in there;
      if there == {} { return None; }
      var i :| i in there;
      id := Some(i);
    }

    lemma RefusedNow(s: Node, peer: nat, role: Role, now: nat)
      requires peer == 0 || peer == s.local
      ensures Blocked(s, peer, role, now)
    {
    }

    lemma NoneHeld(s: Node, peer: nat, role: Role, now: nat)
      requires peer != 0 && peer != s.local && forall i :: i in s.links ==> s.links[i].peer != peer
      ensures Blocked(s, peer, role, now) <==> role == Central && peer in s.backoff && now < s.backoff[peer].until
      ensures WithoutPeer(s.links, peer) == s.links
    {
    }

    lemma OnePerPeerKept(links: map<nat, Link>, peer: nat)
      requires OnePerPeer(links)
      ensures OnePerPeer(WithoutPeer(links, peer))
    {
    }

    lemma SafeLinks()
      requires Safe(State())
      ensures OnePerPeer(links) && next <= U64_MAX
      ensures forall i :: i in links ==> i <= next
    {
    }

    lemma OnlyOne(s: Node, peer: nat, i: nat, role: Role, now: nat)
      requires OnePerPeer(s.links) && HeldFor(s, peer, i) && peer != 0 && peer != s.local
      ensures Blocked(s, peer, role, now) <==> s.links[i].role == role || role != Preferred(s.local, peer)
      ensures s.links - {i} == WithoutPeer(s.links, peer)
    {
      forall j | HeldFor(s, peer, j) ensures j == i { }
    }

    method Ready(id: nat, limit: nat) returns (ok: bool)
      requires Valid()
      modifies this`links, this`backoff, this`run
      ensures Valid() && run == Then(old(run), Op.Ready(id, limit, ok), State())
      ensures Step(old(State()), Op.Ready(id, limit, ok), State())
    {
      ok := false;
      if id in links && limit != 0 {
        backoff := backoff - {links[id].peer};
        links := links[id := links[id].(limit := Some(Min(limit, MAX_WRITE)))];
        ok := true;
      }
      run := Then(run, Op.Ready(id, limit, ok), State());
    }

    // A central that writes here: its link, or a new one ready at once.
    method AdmitPeripheral(peer: nat, limit: nat, now: nat) returns (admitted: Option<nat>)
      requires Valid()
      modifies this`next, this`links, this`backoff, this`run
      ensures Valid()
      ensures admitted.Some? ==> Holds(State(), admitted.value, peer, Peripheral)
      ensures admitted.Some? && admitted.value !in old(links) ==>
                limit > 0 && links[admitted.value].limit == Some(Min(limit, MAX_WRITE))
      ensures admitted.None? ==> forall i: nat :: !Holds(State(), i, peer, Peripheral)
      ensures (exists i: nat :: Holds(old(State()), i, peer, Peripheral)) ==> admitted.Some? && State() == old(State())
      ensures limit == 0 && admitted.Some? ==> exists i: nat :: Holds(old(State()), i, peer, Peripheral)
      ensures forall i: nat :: HeldFor(State(), peer, i) ==> i in old(links) || admitted == Some(i)
      // This device's own link to the peer stays exactly when its direction is kept.
      ensures forall c: nat :: Holds(old(State()), c, peer, Central) ==> (c in links <==> local <= peer)
    {
      hide Possible, Safe, Step;
      AlwaysSafe(run);
      var there := PeripheralLink(peer);
      if there.Some? {
        forall c: nat | Holds(State(), c, peer, Central) ensures false { OneLink(State(), peer, there.value, c); }
        return there;
      }
      admitted := Reserve(peer, Peripheral, now);
      Incoming(old(State()), peer, now, admitted, State());
      if admitted.None? { return; }
      ghost var reserved := State();
      var ok := Ready(admitted.value, limit);
      Readied(reserved, admitted.value, limit, ok, State());
      if !ok {
        ghost var refused := State();
        Remove(admitted.value, false, now);
        Withdrawn(refused, admitted.value, now, State(), peer);
        admitted := None;
      }
    }

    method PeripheralLink(peer: nat) returns (id: Option<nat>)
      ensures if id.Some? then Holds(State(), id.value, peer, Peripheral) else forall i: nat :: !Holds(State(), i, peer, Peripheral)
    {
      var there := set i | i in links && links[i].peer == peer && links[i].role == Peripheral;
      assert forall i: nat :: Holds(State(), i, peer, Peripheral) ==> i in there;
      if there == {} { return None; }
      var i :| i in there;
      id := Some(i);
    }

    lemma Readied(s: Node, id: nat, limit: nat, ok: bool, s': Node)
      requires Step(s, Op.Ready(id, limit, ok), s')
      ensures ok == (id in s.links && limit > 0) && (!ok ==> s' == s) && s'.local == s.local
      ensures ok ==> s'.links == s.links[id := s.links[id].(limit := Some(Min(limit, MAX_WRITE)))]
    {
    }

    lemma Withdrawn(s: Node, id: nat, now: nat, s': Node, peer: nat)
      requires Step(s, Op.Remove(id, false, now), s')
      ensures s'.links == s.links - {id} && s'.local == s.local
      ensures forall i: nat :: Holds(s', i, peer, Peripheral) ==> i != id && Holds(s, i, peer, Peripheral)
      ensures forall i: nat :: HeldFor(s', peer, i) ==> i != id && HeldFor(s, peer, i)
    {
    }

    lemma OneLink(s: Node, peer: nat, i: nat, j: nat)
      requires Safe(s) && HeldFor(s, peer, i) && HeldFor(s, peer, j)
      ensures i == j
    {
    }

    method HasPeer(peer: nat) returns (there: bool)
      ensures there <==> exists i :: HeldFor(State(), peer, i)
    {
      var link := LinkTo(peer);
      there := link.Some?;
    }

    // A reserve for an incoming link where there is none.
    lemma Incoming(s: Node, peer: nat, now: nat, r: Option<nat>, s': Node)
      requires Safe(s) && Step(s, Op.Reserve(peer, Peripheral, now, r), s') && forall i: nat :: !Holds(s, i, peer, Peripheral)
      ensures forall i: nat :: Holds(s', i, peer, Peripheral) ==> r == Some(i)
      ensures r.Some? ==> Holds(s', r.value, peer, Peripheral) && r.value !in s.links
      ensures forall i: nat :: HeldFor(s', peer, i) ==> i in s.links || r == Some(i)
      ensures forall c: nat :: Holds(s, c, peer, Central) ==> (c in s'.links <==> s.local <= peer)
      ensures s'.local == s.local
    {
      hide BackedOff, Expired, QueueOk, BackoffOk, Blocked;
      forall c: nat | Holds(s, c, peer, Central) ensures c in s'.links <==> s.local <= peer { OwnCentral(s, peer, now, r, s', c); }
    }

    method Enqueue(id: nat, bytes: seq<Byte>) returns (ok: bool)
      requires Valid()
      modifies this`links, this`run
      ensures Valid() && run == Then(old(run), Op.Enqueue(id, bytes, ok), State())
      ensures Step(old(State()), Op.Enqueue(id, bytes, ok), State())
    {
      ok := false;
      if id in links && Accepts(links[id], bytes) {
        var l := links[id];
        links := links[id := l.(queue := l.queue + [bytes], queuedBytes := l.queuedBytes + |bytes|)];
        ok := true;
      }
      run := Then(run, Op.Enqueue(id, bytes, ok), State());
    }

    method Broadcast(bytes: seq<Byte>, except: Option<nat>) returns (count: nat)
      requires Valid()
      modifies this`links, this`run
      ensures Valid() && links.Keys == old(links).Keys
      ensures forall id :: id in links ==> links[id] == Sent(old(links)[id], id, bytes, except)
      ensures count == |Takers(old(links), bytes, except)|
    {
      hide Accepts, Possible, Step, Takers, Halfway;
      var ids := links.Keys;
      ghost var sent: set<nat> := {};
      count := 0;
      NothingSent(links, bytes, except);
      while ids != {}
        invariant Valid() && ids <= links.Keys && count == |sent|
        invariant Halfway(old(links), links, ids, sent, bytes, except)
        decreases |ids|
      {
        var id :| id in ids;
        ghost var before := State();
        var ok := false;
        if Some(id) != except {
          ok := Enqueue(id, bytes);
          EnqueueTouches(before, id, bytes, ok, State());
          if ok { count := count + 1; }
        }
        OneMoreSent(old(links), before.links, links, ids, sent, id, bytes, except, ok);
        ids, sent := ids - {id}, if ok then sent + {id} else sent;
      }
      AllSent(old(links), links, sent, bytes, except);
    }

    // The links in ids still have their turn; the rest had it, and sent took the bytes.
    ghost predicate Halfway(links: map<nat, Link>, now: map<nat, Link>, ids: set<nat>, sent: set<nat>, bytes: seq<Byte>, except: Option<nat>) {
      && now.Keys == links.Keys && sent == Takers(links, bytes, except) - ids
      && forall id :: id in links ==> now[id] == if id in ids then links[id] else Sent(links[id], id, bytes, except)
    }

    lemma NothingSent(links: map<nat, Link>, bytes: seq<Byte>, except: Option<nat>)
      ensures Halfway(links, links, links.Keys, {}, bytes, except)
    {
      assert Takers(links, bytes, except) <= links.Keys;
    }

    lemma OneMoreSent(links: map<nat, Link>, now: map<nat, Link>, after: map<nat, Link>, ids: set<nat>, sent: set<nat>, id: nat,
                      bytes: seq<Byte>, except: Option<nat>, ok: bool)
      requires Halfway(links, now, ids, sent, bytes, except) && id in ids && id in now
      requires ok == (Some(id) != except && Accepts(now[id], bytes)) && after.Keys == now.Keys
      requires after[id] == if ok then Queued(now[id], bytes) else now[id]
      requires forall j :: j in now && j != id ==> after[j] == now[j]
      ensures Halfway(links, after, ids - {id}, if ok then sent + {id} else sent, bytes, except)
      ensures id !in sent
    {
      hide Accepts;
      var takers := Takers(links, bytes, except);
      assert id in takers <==> ok;
      assert takers - (ids - {id}) == if ok then takers - ids + {id} else takers - ids;
    }

    lemma AllSent(links: map<nat, Link>, now: map<nat, Link>, sent: set<nat>, bytes: seq<Byte>, except: Option<nat>)
      requires Halfway(links, now, {}, sent, bytes, except)
      ensures now.Keys == links.Keys && sent == Takers(links, bytes, except)
      ensures forall id :: id in now ==> now[id] == Sent(links[id], id, bytes, except)
    {
      hide Takers, Sent;
    }

    lemma EnqueueTouches(s: Node, id: nat, bytes: seq<Byte>, ok: bool, s': Node)
      requires Step(s, Op.Enqueue(id, bytes, ok), s') && id in s.links
      ensures ok == Accepts(s.links[id], bytes) && s'.links.Keys == s.links.Keys
      ensures s'.links[id] == if ok then Queued(s.links[id], bytes) else s.links[id]
      ensures forall j :: j in s.links && j != id ==> s'.links[j] == s.links[j]
    {
    }

    function Sent(l: Link, id: nat, bytes: seq<Byte>, except: Option<nat>): Link {
      if Some(id) != except && Accepts(l, bytes) then Queued(l, bytes) else l
    }

    function Takers(links: map<nat, Link>, bytes: seq<Byte>, except: Option<nat>): set<nat> {
      set id | id in links && Some(id) != except && Accepts(links[id], bytes)
    }

    function Queued(l: Link, bytes: seq<Byte>): Link {
      l.(queue := l.queue + [bytes], queuedBytes := l.queuedBytes + |bytes|)
    }

    method TakeWrite(id: nat) returns (taken: Option<seq<Byte>>)
      requires Valid()
      modifies this`links, this`run
      ensures Valid() && run == Then(old(run), Op.TakeWrite(id, taken), State())
      ensures Step(old(State()), Op.TakeWrite(id, taken), State())
    {
      taken := None;
      if id in links && links[id].queue != [] {
        AlwaysSafe(run);
        QueueSteps(links[id], []);
        var l := links[id];
        taken := Some(l.queue[0]);
        links := links[id := l.(queue := l.queue[1..], queuedBytes := l.queuedBytes - |l.queue[0]|)];
      }
      run := Then(run, Op.TakeWrite(id, taken), State());
    }

    method Poll() returns (out: seq<Event>, limits: map<nat, nat>)
      requires Valid()
      modifies this`events, this`run
      ensures Valid() && run == Then(old(run), Op.Poll(out), State())
      ensures Step(old(State()), Op.Poll(out), State())
      ensures limits == map id | id in links && links[id].limit.Some? :: links[id].limit.value
    {
      var k := Min(POLL_EVENTS, |events|);
      out := events[..k];
      events := events[k..];
      limits := map id | id in links && links[id].limit.Some? :: links[id].limit.value;
      run := Then(run, Op.Poll(out), State());
    }

    method ClearLinks()
      requires Valid()
      modifies this`links, this`events, this`run
      ensures Valid() && run == Then(old(run), Op.ClearLinks, State())
      ensures Step(old(State()), Op.ClearLinks, State())
    {
      links, events := map[], [];
      run := Then(run, Op.ClearLinks, State());
    }

    method Receive(id: nat, chunk: seq<Byte>, now: nat) returns (ghost packets: seq<seq<Byte>>)
      requires Valid()
      modifies this`links, this`events, this`droppedEvents, this`droppedInput, this`run
      ensures Valid() && run == Then(old(run), Op.Receive(id, chunk, now, packets), State())
      ensures Step(old(State()), Op.Receive(id, chunk, now, packets), State())
    {
      hide Hear, QueueOk;
      AlwaysSafe(run);
      packets := [];
      if id in links { packets := Take(id, chunk, now); }
      run := Then(run, Op.Receive(id, chunk, now, packets), State());
    }

    // The limits of the current second, then the link's reassembler.
    method Take(id: nat, chunk: seq<Byte>, now: nat) returns (ghost packets: seq<seq<Byte>>)
      requires id in links && |events| <= MAX_EVENTS
      modifies this`links, this`events, this`droppedEvents, this`droppedInput
      ensures Step(old(State()), Op.Receive(id, chunk, now, packets), State())
    {
      hide Pushed, Unwanted, EventsOf, Newest, Hear, Counted;
      NoEvents(id, events);
      CountedIs(links[id], |chunk|, now);
      HearCases(links[id], chunk, now);
      var link := links[id];
      if link.second != now / 1000 {
        link := link.(second := now / 1000, chunks := 0, bytes := 0, packets := 0);
      }
      link := link.(chunks := Saturated(link.chunks + 1, U32_MAX), bytes := Saturated(link.bytes + |chunk|, U64_MAX));
      packets := [];
      if Unwanted(link, chunk) {
        links := links[id := link.(input := EMPTY)];
        droppedInput := Saturated(droppedInput + 1, U64_MAX);
        return;
      }
      var input := new Buffer.From(link.input);
      var pushed := input.Push(chunk, now);
      link := link.(input := input.State());
      if pushed.None? {
        links := links[id := link];
        droppedInput := Saturated(droppedInput + 1, U64_MAX);
        return;
      }
      link, packets := Deliver(id, link, pushed.value, now);
      links := links[id := link];
    }

    lemma CountedIs(l: Link, n: nat, now: nat)
      ensures var w := if l.second != now / 1000 then l.(second := now / 1000, chunks := 0, bytes := 0, packets := 0) else l;
              Counted(l, n, now) == w.(chunks := Saturated(w.chunks + 1, U32_MAX), bytes := Saturated(w.bytes + n, U64_MAX))
    {
    }

    lemma HearCases(l: Link, chunk: seq<Byte>, now: nat)
      ensures var w := Counted(l, |chunk|, now);
              var pushed := Pushed(w.input, chunk, now);
              if Unwanted(w, chunk) then Hear(l, chunk, now) == Heard(w.(input := EMPTY), [], 1)
              else if pushed.1.None? then Hear(l, chunk, now) == Heard(w.(input := pushed.0), [], 1)
              else
                var out := pushed.1.value;
                var k := Min(MAX_PACKETS_PER_SECOND - Min(w.packets, MAX_PACKETS_PER_SECOND), |out|);
                Hear(l, chunk, now) == Heard(w.(input := pushed.0, packets := Saturated(w.packets + |out|, U32_MAX),
                                               heard := if k > 0 then now else w.heard), out[..k], |out| - k)
    {
      hide Pushed, Counted, Unwanted;
    }

    lemma NoEvents(id: nat, events: seq<Event>)
      requires |events| <= MAX_EVENTS
      ensures events + EventsOf(id, []) == events && Newest(events) == events
    {
    }

    method Deliver(id: nat, link: Link, out: seq<seq<Byte>>, now: nat) returns (l: Link, ghost packets: seq<seq<Byte>>)
      requires |events| <= MAX_EVENTS
      modifies this`events, this`droppedEvents, this`droppedInput
      ensures var k := Min(MAX_PACKETS_PER_SECOND - Min(link.packets, MAX_PACKETS_PER_SECOND), |out|);
              var all := old(events) + EventsOf(id, packets);
              && packets == out[..k]
              && l == link.(packets := Saturated(link.packets + |out|, U32_MAX), heard := if k > 0 then now else link.heard)
              && events == Newest(all)
              && droppedEvents == Saturated(old(droppedEvents) + (|all| - |Newest(all)|), U64_MAX)
              && droppedInput == Saturated(old(droppedInput) + (|out| - k), U64_MAX)
    {
      hide EventsOf, Newest;
      packets := [];
      l := link;
      ghost var room := MAX_PACKETS_PER_SECOND - Min(link.packets, MAX_PACKETS_PER_SECOND);
      ghost var all := old(events);
      NoEvents(id, events);
      assert out[..0] == [];
      var k := 0;
      while k < |out|
        invariant 0 <= k <= |out| && packets == out[..Min(room, k)] && all == old(events) + EventsOf(id, packets)
        invariant l == link.(packets := Saturated(link.packets + k, U32_MAX),
                             heard := if Min(room, k) > 0 then now else link.heard)
        invariant events == Newest(all) && |Newest(all)| <= |all|
        invariant droppedEvents == Saturated(old(droppedEvents) + (|all| - |Newest(all)|), U64_MAX)
        invariant droppedInput == Saturated(old(droppedInput) + (k - Min(room, k)), U64_MAX)
      {
        l := l.(packets := Saturated(l.packets + 1, U32_MAX));
        if l.packets > MAX_PACKETS_PER_SECOND {
          droppedInput := Saturated(droppedInput + 1, U64_MAX);
        } else {
          l := l.(heard := now);
          NewestStep(all, Event(id, out[k]));
          EventsOfStep(id, out, k);
          all := all + [Event(id, out[k])];
          if |events| >= MAX_EVENTS {
            events := events[1..];
            droppedEvents := Saturated(droppedEvents + 1, U64_MAX);
          }
          events := events + [Event(id, out[k])];
          packets := out[..k + 1];
        }
        k := k + 1;
      }
    }
  }

  // This device, the higher address, has its own connection to the peer, ready
  // for use; the peer's write with size 0 is admitted nothing, and the
  // connection is gone.
  method ZeroLimitExample() returns (before: bool, admitted: Option<nat>, after: bool)
    ensures before && admitted.None? && !after
  {
    hide Possible, Step;
    var core := new Core();
    core.SetLocal(3);
    var id := core.Reserve(2, Central, 0);
    FirstLink(id, core.State());
    ghost var reserved := core.State();
    before := core.Ready(1, 20);
    core.Readied(reserved, 1, 20, before, core.State());
    assert Holds(core.State(), 1, 2, Central);
    admitted := core.AdmitPeripheral(2, 0, 1);
    after := core.HasPeer(2);
  }

  lemma FirstLink(id: Option<nat>, s: Node)
    requires Step(EMPTY_NODE.(local := 3), Op.Reserve(2, Central, 0, id), s)
    ensures s.links == map[1 := FreshLink(2, Central, 0)] && s.local == 3
  {
    hide BackedOff;
    var start := EMPTY_NODE.(local := 3);
    assert !Blocked(start, 2, Central, 0);
    assert Live(WithoutPeer(start.links, 2), 0) == map[];
  }
}
