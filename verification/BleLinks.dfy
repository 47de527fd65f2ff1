// The BLE link table: what each operation does to it, and what they all keep.
module BleLinks {
  import opened Options
  import opened Numbers
  import opened Octets
  import opened Reassembler

  const MAX_LINKS := 8
  const MAX_WRITE := 512
  const MAX_QUEUE_BYTES := 16384
  const MAX_QUEUE_PACKETS := 64
  const MAX_EVENTS := 256
  const MAX_BACKOFF := 128
  const MAX_CHUNKS_PER_SECOND := 256
  const MAX_BYTES_PER_SECOND := 16384
  const MAX_PACKETS_PER_SECOND := 40
  const POLL_EVENTS := 32
  const FIRST_DELAY := 30000
  const LONGEST_DELAY := 300000
  const SETUP_MILLIS := 15000
  const SILENCE_MILLIS := 120000

  datatype Role = Central | Peripheral

  datatype Link = Link(peer: nat, role: Role, limit: Option<nat>, queue: seq<seq<Byte>>, queuedBytes: nat, input: Stream,
                       since: nat, heard: nat, second: nat, chunks: U32, bytes: U64, packets: U32)

  datatype Event = Event(link: nat, packet: seq<Byte>)

  datatype Wait = Wait(until: nat, delay: nat)

  datatype Node = Node(local: nat, next: nat, links: map<nat, Link>, backoff: map<nat, Wait>, events: seq<Event>,
                       droppedEvents: U64, droppedInput: U64)

  const EMPTY_NODE := Node(0, 0, map[], map[], [], 0, 0)

  function SumLen(queue: seq<seq<Byte>>): nat {
    if queue == [] then 0 else SumLen(queue[..|queue| - 1]) + |queue[|queue| - 1]|
  }

  function FreshLink(peer: nat, role: Role, now: nat): Link {
    Link(peer, role, None, [], 0, EMPTY, now, now, now / 1000, 0, 0, 0)
  }

  // The direction a crossed pair keeps: the lower address stays the central.
  function Preferred(local: nat, peer: nat): Role { if local < peer then Central else Peripheral }

  predicate Expired(l: Link, now: nat) {
    (l.limit.None? && now - l.since > SETUP_MILLIS) || now - l.heard > SILENCE_MILLIS
  }

  // ---- What every node keeps ----------------------------------------------------

  ghost predicate QueueOk(l: Link) {
    && l.queuedBytes == SumLen(l.queue) <= MAX_QUEUE_BYTES
    && |l.queue| <= MAX_QUEUE_PACKETS
    && (forall p :: p in l.queue ==> 1 <= |p| <= MAX_WRITE)
    && (l.limit.Some? ==> 1 <= l.limit.value <= MAX_WRITE)
    && (l.queue != [] ==> l.limit.Some?)
  }

  ghost predicate OnePerPeer(links: map<nat, Link>) {
    forall i, j :: i in links && j in links && links[i].peer == links[j].peer ==> i == j
  }

  ghost predicate BackoffOk(b: map<nat, Wait>) {
    |b| <= MAX_BACKOFF && forall p :: p in b ==> FIRST_DELAY <= b[p].delay <= LONGEST_DELAY
  }

  ghost predicate LinksSafe(links: map<nat, Link>, next: nat) {
    && |links| <= MAX_LINKS && OnePerPeer(links)
    && forall i :: i in links ==> 1 <= i <= next && links[i].peer != 0 && QueueOk(links[i])
  }

  ghost predicate Safe(s: Node) {
    && LinksSafe(s.links, s.next)
    && s.next <= U64_MAX && BackoffOk(s.backoff) && |s.events| <= MAX_EVENTS
  }

  ghost predicate NotSelf(s: Node) { forall i :: i in s.links ==> s.links[i].peer != s.local }

  // ---- Backoff ----------------------------------------------------------------------

  function Delay(b: map<nat, Wait>, peer: nat): nat {
    if peer in b then Min(b[peer].delay * 2, LONGEST_DELAY) else FIRST_DELAY
  }

  function Penalty(now: nat, delay: nat): Wait { Wait(Saturated(now + delay, U64_MAX), delay) }

  function Penalized(b: map<nat, Wait>, failed: set<nat>, now: nat): map<nat, Wait> {
    map p | p in b.Keys + failed :: if p in failed then Penalty(now, Delay(b, p)) else b[p]
  }

  ghost predicate SoonestIn(b: map<nat, Wait>, v: nat) { v in b && forall p :: p in b ==> b[v].until <= b[p].until }

  // One failure exactly: where the table is full it forgets a peer that may be
  // retried first.
  ghost predicate OneBackedOff(b: map<nat, Wait>, peer: nat, now: nat, b': map<nat, Wait>) {
    if |b| < MAX_BACKOFF || peer in b then b' == b[peer := Penalty(now, Delay(b, peer))]
    else exists v: nat :: SoonestIn(b, v) && b' == (b - {v})[peer := Penalty(now, FIRST_DELAY)]
  }

  ghost predicate FailedInOrder(b: map<nat, Wait>, order: seq<nat>, now: nat, b': map<nat, Wait>) {
    if order == [] then b' == b
    else
      var n := |order| - 1;
      exists b1 :: FailedInOrder(b, order[..n], now, b1) && OneBackedOff(b1, order[n], now, b')
  }

  ghost predicate Orders(order: seq<nat>, peers: set<nat>) {
    (forall p :: p in order <==> p in peers) && forall i, j :: 0 <= i < j < |order| ==> order[i] != order[j]
  }

  // These peers failed, one after another.
  ghost predicate BackedOff(b: map<nat, Wait>, failed: set<nat>, now: nat, b': map<nat, Wait>) {
    exists order :: Orders(order, failed) && FailedInOrder(b, order, now, b')
  }

  // The table computed at once, or a full one.
  ghost predicate Whole(b: map<nat, Wait>, failed: set<nat>, now: nat, b': map<nat, Wait>) {
    if |b.Keys + failed| <= MAX_BACKOFF then b' == Penalized(b, failed, now) else |b'| == MAX_BACKOFF
  }

  // What that comes to: each waits from now, twice as long as last time unless
  // that was forgotten. While there is room nothing is forgotten; without it
  // the table stays full, and of the others those forgotten could be retried
  // no later than those kept.
  ghost predicate HeldBack(b: map<nat, Wait>, failed: set<nat>, now: nat, b': map<nat, Wait>) {
    && BackoffOk(b')
    && Whole(b, failed, now, b')
    && (forall p :: p in b' ==>
          if p in failed then b'[p] == Penalty(now, FIRST_DELAY) || b'[p] == Penalty(now, Delay(b, p))
          else p in b && b'[p] == b[p])
    && forall p, q :: p in b && p !in failed && p !in b' && q in b' && q !in failed ==> b[p].until <= b'[q].until
  }

  lemma BackedOffMeans(b: map<nat, Wait>, failed: set<nat>, now: nat, b': map<nat, Wait>)
    requires BackoffOk(b) && BackedOff(b, failed, now, b')
    ensures HeldBack(b, failed, now, b')
  {
    hide BackoffOk, HeldBack, FailedInOrder, Orders;
    var order :| Orders(order, failed) && FailedInOrder(b, order, now, b');
    InOrderHeldBack(b, order, failed, now, b');
  }

  lemma {:induction false} InOrderHeldBack(b: map<nat, Wait>, order: seq<nat>, failed: set<nat>, now: nat, b': map<nat, Wait>)
    requires BackoffOk(b) && Orders(order, failed) && FailedInOrder(b, order, now, b')
    ensures HeldBack(b, failed, now, b')
    decreases |order|
  {
    hide BackoffOk, OneBackedOff, HeldBack;
    if order == [] {
      assert failed == {};
      NoneHeldBack(b, now);
    } else {
      var n := |order| - 1;
      var front, peer := order[..n], order[n];
      var b1 :| FailedInOrder(b, front, now, b1) && OneBackedOff(b1, peer, now, b');
      FrontOrders(order, failed);
      InOrderHeldBack(b, front, failed - {peer}, now, b1);
      OneMoreHeldBack(b, failed - {peer}, now, b1, peer, b');
      assert failed - {peer} + {peer} == failed;
    }
  }

  lemma FrontOrders(order: seq<nat>, failed: set<nat>)
    requires Orders(order, failed) && order != []
    ensures order[|order| - 1] in failed && Orders(order[..|order| - 1], failed - {order[|order| - 1]})
  {
    var n := |order| - 1;
    assert order == order[..n] + [order[n]];
  }

  lemma NoneHeldBack(b: map<nat, Wait>, now: nat)
    requires BackoffOk(b)
    ensures HeldBack(b, {}, now, b)
  {
    assert b.Keys + {} == b.Keys && |b.Keys| == |b|;
  }

  lemma OneMoreHeldBack(b: map<nat, Wait>, failed: set<nat>, now: nat, b1: map<nat, Wait>, peer: nat, b2: map<nat, Wait>)
    requires peer !in failed && HeldBack(b, failed, now, b1) && OneBackedOff(b1, peer, now, b2)
    ensures HeldBack(b, failed + {peer}, now, b2)
  {
    hide BackoffOk, Penalized, Delay, Penalty, OneBackedOff, Whole;
    OneKeepsOk(b1, peer, now, b2);
    OneMoreSize(b, failed, now, b1, peer, b2);
    OneMoreEntry(b, failed, now, b1, peer, b2);
  }

  lemma OneMoreSize(b: map<nat, Wait>, failed: set<nat>, now: nat, b1: map<nat, Wait>, peer: nat, b2: map<nat, Wait>)
    requires peer !in failed && OneBackedOff(b1, peer, now, b2) && Whole(b, failed, now, b1)
    ensures Whole(b, failed + {peer}, now, b2)
  {
    hide Penalized, OneBackedOff, Delay, Penalty;
    PenalizedBack(b, failed, peer, now);
    OneMoreRow(b1, peer, now, b2);
  }

  lemma PenalizedBack(b: map<nat, Wait>, failed: set<nat>, peer: nat, now: nat)
    requires peer !in failed
    ensures var was := Penalized(b, failed, now);
            && |was| == |b.Keys + failed| && (peer in was <==> peer in b.Keys + failed)
            && |b.Keys + (failed + {peer})| == |was| + (if peer in was then 0 else 1)
            && was[peer := Penalty(now, Delay(was, peer))] == Penalized(b, failed + {peer}, now)
  {
    hide Penalized, Delay, Penalty;
    var was := Penalized(b, failed, now);
    PenalizedKeys(b, failed, now);
    assert b.Keys + (failed + {peer}) == was.Keys + {peer};
    PenalizedTwice(b, failed, peer, now);
    PenalizedOne(was, peer, now);
  }

  lemma PenalizedKeys(b: map<nat, Wait>, failed: set<nat>, now: nat)
    ensures Penalized(b, failed, now).Keys == b.Keys + failed && |Penalized(b, failed, now)| == |b.Keys + failed|
  {
    hide Delay, Penalty;
    var all := Penalized(b, failed, now);
    assert all.Keys == b.Keys + failed;
    assert |all| == |all.Keys|;
  }

  lemma PenalizedTwice(b: map<nat, Wait>, failed: set<nat>, peer: nat, now: nat)
    requires peer !in failed
    ensures Penalized(Penalized(b, failed, now), {peer}, now) == Penalized(b, failed + {peer}, now)
  {
  }

  lemma PenalizedOne(b: map<nat, Wait>, peer: nat, now: nat)
    ensures Penalized(b, {peer}, now) == b[peer := Penalty(now, Delay(b, peer))]
  {
  }

  lemma OneMoreRow(b: map<nat, Wait>, peer: nat, now: nat, b': map<nat, Wait>)
    requires OneBackedOff(b, peer, now, b')
    ensures |b'| == |b| + if |b| < MAX_BACKOFF && peer !in b then 1 else 0
    ensures |b| < MAX_BACKOFF || peer in b ==> b' == b[peer := Penalty(now, Delay(b, peer))]
  {
    hide Delay, Penalty;
    if |b| < MAX_BACKOFF || peer in b {
      MapSizes(b, peer, peer, Penalty(now, Delay(b, peer)));
    } else {
      var v: nat :| SoonestIn(b, v) && b' == (b - {v})[peer := Penalty(now, FIRST_DELAY)];
      MapSizes(b, v, peer, Penalty(now, FIRST_DELAY));
      MapSizes(b - {v}, v, peer, Penalty(now, FIRST_DELAY));
    }
  }

  lemma OneMoreEntry(b: map<nat, Wait>, failed: set<nat>, now: nat, b1: map<nat, Wait>, peer: nat, b2: map<nat, Wait>)
    requires peer !in failed && HeldBack(b, failed, now, b1) && OneBackedOff(b1, peer, now, b2)
    ensures forall p :: p in b2 ==>
              if p in failed + {peer} then b2[p] == Penalty(now, FIRST_DELAY) || b2[p] == Penalty(now, Delay(b, p))
              else p in b && b2[p] == b[p]
    ensures forall p, q :: p in b && p !in failed + {peer} && p !in b2 && q in b2 && q !in failed + {peer} ==> b[p].until <= b2[q].until
  {
    hide BackoffOk, Whole, Penalty;
  }

  lemma MapSizes(b: map<nat, Wait>, v: nat, peer: nat, w: Wait)
    ensures v in b ==> |b - {v}| == |b| - 1
    ensures |b[peer := w]| == |b| + if peer in b then 0 else 1
  {
    assert (b - {v}).Keys == b.Keys - {v} && b[peer := w].Keys == b.Keys + {peer};
    assert |b - {v}| == |(b - {v}).Keys| && |b| == |b.Keys| && |b[peer := w]| == |b[peer := w].Keys|;
  }

  lemma OneKeepsOk(b: map<nat, Wait>, peer: nat, now: nat, b': map<nat, Wait>)
    requires BackoffOk(b) && OneBackedOff(b, peer, now, b')
    ensures BackoffOk(b')
  {
    OneMoreRow(b, peer, now, b');
  }

  // ---- Receiving --------------------------------------------------------------------

  function Counted(l: Link, n: nat, now: nat): Link {
    var w := if l.second != now / 1000 then l.(second := now / 1000, chunks := 0, bytes := 0, packets := 0) else l;
    w.(chunks := Saturated(w.chunks + 1, U32_MAX), bytes := Saturated(w.bytes + n, U64_MAX))
  }

  predicate Unwanted(l: Link, chunk: seq<Byte>) {
    |chunk| == 0 || |chunk| > MAX_PACKET || l.limit.None? || l.chunks > MAX_CHUNKS_PER_SECOND || l.bytes > MAX_BYTES_PER_SECOND
  }

  // packets: those that reach the event buffer; refused: what is counted as dropped.
  datatype Heard = Heard(link: Link, packets: seq<seq<Byte>>, refused: nat)

  function Hear(l: Link, chunk: seq<Byte>, now: nat): Heard {
    var w := Counted(l, |chunk|, now);
    if Unwanted(w, chunk) then Heard(w.(input := EMPTY), [], 1)
    else
      var pushed := Pushed(w.input, chunk, now);
      if pushed.1.None? then Heard(w.(input := pushed.0), [], 1)
      else
        var out := pushed.1.value;
        var k := Min(MAX_PACKETS_PER_SECOND - Min(w.packets, MAX_PACKETS_PER_SECOND), |out|);
        Heard(w.(input := pushed.0, packets := Saturated(w.packets + |out|, U32_MAX), heard := if k > 0 then now else w.heard),
              out[..k], |out| - k)
  }

  function EventsOf(id: nat, packets: seq<seq<Byte>>): seq<Event> { seq(|packets|, i requires 0 <= i < |packets| => Event(id, packets[i])) }

  function Newest(events: seq<Event>): seq<Event> {
    if |events| <= MAX_EVENTS then events else events[|events| - MAX_EVENTS..]
  }

  // ---- The operations ----------------------------------------------------------------

  datatype Op =
    | SetLocal(local: nat)
    | Reserve(peer: nat, role: Role, now: nat, reserved: Option<nat>)
    | Ready(id: nat, limit: nat, ok: bool)
    | Remove(id: nat, failed: bool, now: nat)
    | Expire(now: nat)
    | Enqueue(id: nat, bytes: seq<Byte>, ok: bool)
    | TakeWrite(id: nat, taken: Option<seq<Byte>>)
    | Receive(id: nat, chunk: seq<Byte>, now: nat, packets: seq<seq<Byte>>)
    | Poll(events: seq<Event>)
    | ClearLinks

  ghost predicate HeldFor(s: Node, peer: nat, id: nat) { id in s.links && s.links[id].peer == peer }

  // The reserve is refused outright, and nothing changes.
  ghost predicate Blocked(s: Node, peer: nat, role: Role, now: nat) {
    || peer == 0 || peer == s.local
    || (exists id :: HeldFor(s, peer, id) && (s.links[id].role == role || role != Preferred(s.local, peer)))
    || (role == Central && peer in s.backoff && now < s.backoff[peer].until && !exists id :: HeldFor(s, peer, id))
  }

  function Live(links: map<nat, Link>, now: nat): map<nat, Link> {
    map id | id in links && !Expired(links[id], now) :: links[id]
  }

  function FailedPeers(links: map<nat, Link>, now: nat): set<nat> {
    set id | id in links && Expired(links[id], now) && links[id].role == Central :: links[id].peer
  }

  function WithoutPeer(links: map<nat, Link>, peer: nat): map<nat, Link> {
    map id | id in links && links[id].peer != peer :: links[id]
  }

  ghost predicate Reserved(s: Node, peer: nat, role: Role, now: nat, r: Option<nat>, s': Node) {
    if Blocked(s, peer, role, now) then r.None? && s' == s
    else
      var others := WithoutPeer(s.links, peer);
      var kept := Live(others, now);
      && BackedOff(s.backoff, FailedPeers(others, now), now, s'.backoff)
      && r == (if |kept| < MAX_LINKS && s.next < U64_MAX then Some(s.next + 1) else None)
      && s' == s.(backoff := s'.backoff, next := if r.Some? then s.next + 1 else s.next,
                  links := if r.Some? then kept[s.next + 1 := FreshLink(peer, role, now)] else kept)
  }

  predicate Accepts(l: Link, bytes: seq<Byte>) {
    && 1 <= |bytes| && l.limit.Some? && |bytes| <= l.limit.value
    && |l.queue| < MAX_QUEUE_PACKETS && l.queuedBytes + |bytes| <= MAX_QUEUE_BYTES
  }

  ghost predicate Step(s: Node, op: Op, s': Node) {
    match op
    case SetLocal(local) => s' == s.(local := local)
    case Reserve(peer, role, now, reserved) => Reserved(s, peer, role, now, reserved, s')
    case Ready(id, limit, ok) =>
      && ok == (id in s.links && limit > 0)
      && s' == (if ok then s.(links := s.links[id := s.links[id].(limit := Some(Min(limit, MAX_WRITE)))],
                              backoff := s.backoff - {s.links[id].peer}) else s)
    case Remove(id, failed, now) =>
      && s' == s.(links := s.links - {id}, backoff := s'.backoff)
      && (if id in s.links && failed && s.links[id].role == Central
          then OneBackedOff(s.backoff, s.links[id].peer, now, s'.backoff)
          else s'.backoff == s.backoff)
    case Expire(now) =>
      && s' == s.(links := Live(s.links, now), backoff := s'.backoff)
      && BackedOff(s.backoff, FailedPeers(s.links, now), now, s'.backoff)
    case Enqueue(id, bytes, ok) =>
      && ok == (id in s.links && Accepts(s.links[id], bytes))
      && s' == (if !ok then s else
                s.(links := s.links[id := s.links[id].(queue := s.links[id].queue + [bytes],
                                                       queuedBytes := s.links[id].queuedBytes + |bytes|)]))
    case TakeWrite(id, taken) =>
      if id !in s.links || s.links[id].queue == [] then taken.None? && s' == s
      else
        var l := s.links[id];
        && taken == Some(l.queue[0])
        && |l.queue[0]| <= l.queuedBytes
        && s' == s.(links := s.links[id := l.(queue := l.queue[1..], queuedBytes := l.queuedBytes - |l.queue[0]|)])
    case Receive(id, chunk, now, packets) =>
      if id !in s.links then packets == [] && s' == s
      else
        var h := Hear(s.links[id], chunk, now);
        var all := s.events + EventsOf(id, packets);
        && packets == h.packets
        && s' == s.(links := s.links[id := h.link], events := Newest(all),
                    droppedEvents := Saturated(s.droppedEvents + (|all| - |Newest(all)|), U64_MAX),
                    droppedInput := Saturated(s.droppedInput + h.refused, U64_MAX))
    case Poll(events) =>
      && events == s.events[..Min(POLL_EVENTS, |s.events|)]
      && s' == s.(events := s.events[Min(POLL_EVENTS, |s.events|)..])
    case ClearLinks => s' == s.(links := map[], events := [])
  }

  // ---- Every operation keeps the node safe ---------------------------------------------

  lemma {:induction false} SumLenFront(p: seq<Byte>, queue: seq<seq<Byte>>)
    ensures SumLen([p] + queue) == |p| + SumLen(queue)
  {
    if queue == [] {
      assert [p] + queue == [p] && [p][..0] == [];
      assert SumLen([p]) == SumLen([]) + |p|;
    } else {
      var n := |queue| - 1;
      assert ([p] + queue)[..n + 1] == [p] + queue[..n];
      SumLenFront(p, queue[..n]);
    }
  }

  lemma SumLenBack(queue: seq<seq<Byte>>, p: seq<Byte>)
    ensures SumLen(queue + [p]) == SumLen(queue) + |p|
  {
    assert (queue + [p])[..|queue|] == queue;
  }

  lemma SubmapSize(a: map<nat, Link>, b: map<nat, Link>)
    requires a.Keys <= b.Keys
    ensures |a| <= |b|
  {
    SubsetSize(a.Keys, b.Keys);
    assert |a| == |a.Keys| && |b| == |b.Keys|;
  }

  // A queue after one more accepted packet, or one taken.
  lemma QueueSteps(l: Link, bytes: seq<Byte>)
    requires QueueOk(l)
    ensures Accepts(l, bytes) ==> QueueOk(l.(queue := l.queue + [bytes], queuedBytes := l.queuedBytes + |bytes|))
    ensures l.queue != [] ==> |l.queue[0]| <= l.queuedBytes
    ensures l.queue != [] ==> QueueOk(l.(queue := l.queue[1..], queuedBytes := l.queuedBytes - |l.queue[0]|))
  {
    SumLenBack(l.queue, bytes);
    if l.queue != [] {
      SumLenFront(l.queue[0], l.queue[1..]);
      assert l.queue == [l.queue[0]] + l.queue[1..];
    }
  }

  lemma HearKeepsQueue(l: Link, chunk: seq<Byte>, now: nat)
    ensures var h := Hear(l, chunk, now).link;
            h.queue == l.queue && h.queuedBytes == l.queuedBytes && h.limit == l.limit && h.peer == l.peer && h.role == l.role
  {
    hide Pushed;
  }

  lemma FewerLinks(links: map<nat, Link>, next: nat, fewer: map<nat, Link>)
    requires LinksSafe(links, next) && fewer.Keys <= links.Keys && forall i :: i in fewer ==> fewer[i] == links[i]
    ensures LinksSafe(fewer, next)
  {
    hide QueueOk;
    SubmapSize(fewer, links);
  }

  lemma ChangedLink(links: map<nat, Link>, next: nat, id: nat, l: Link)
    requires LinksSafe(links, next) && id in links && l.peer == links[id].peer && QueueOk(l)
    ensures LinksSafe(links[id := l], next)
  {
    hide QueueOk;
    SubmapSize(links[id := l], links);
  }

  lemma AddedLink(links: map<nat, Link>, next: nat, l: Link)
    requires LinksSafe(links, next) && |links| < MAX_LINKS && l.peer != 0 && QueueOk(l)
    requires forall i :: i in links ==> links[i].peer != l.peer
    ensures LinksSafe(links[next + 1 := l], next + 1)
  {
    hide QueueOk;
  }

  lemma ReserveKeepsSafe(s: Node, peer: nat, role: Role, now: nat, r: Option<nat>, s': Node)
    requires Safe(s) && Reserved(s, peer, role, now, r, s')
    ensures Safe(s')
  {
    hide LinksSafe, Blocked, Expired, BackoffOk, BackedOff;
    if !Blocked(s, peer, role, now) {
      var kept := Live(WithoutPeer(s.links, peer), now);
      FewerLinks(s.links, s.next, kept);
      BackedOffMeans(s.backoff, FailedPeers(WithoutPeer(s.links, peer), now), now, s'.backoff);
      NotBlocked(s, peer, role, now);
      FreshQueueOk(peer, role, now);
      if r.Some? { AddedLink(kept, s.next, FreshLink(peer, role, now)); }
    }
  }

  lemma NotBlocked(s: Node, peer: nat, role: Role, now: nat)
    requires !Blocked(s, peer, role, now)
    ensures peer != 0 && peer != s.local
  {
  }

  lemma FreshQueueOk(peer: nat, role: Role, now: nat)
    ensures QueueOk(FreshLink(peer, role, now))
  {
  }

  lemma SendKeepsSafe(s: Node, op: Op, s': Node)
    requires (op.Enqueue? || op.TakeWrite?) && Safe(s) && Step(s, op, s')
    ensures Safe(s')
  {
    hide LinksSafe, QueueOk, Accepts, BackoffOk;
    if s' != s {
      LinkSafe(s, op.id);
      QueueSteps(s.links[op.id], if op.Enqueue? then op.bytes else []);
      ChangedLink(s.links, s.next, op.id, s'.links[op.id]);
    }
  }

  lemma ReceiveKeepsSafe(s: Node, op: Op, s': Node)
    requires op.Receive? && Safe(s) && Step(s, op, s')
    ensures Safe(s')
  {
    hide LinksSafe, QueueOk, Hear, BackoffOk;
    if op.id in s.links {
      LinkSafe(s, op.id);
      HearQueueOk(s.links[op.id], op.chunk, op.now);
      ChangedLink(s.links, s.next, op.id, s'.links[op.id]);
    }
  }

  lemma ReadyKeepsSafe(s: Node, op: Op, s': Node)
    requires op.Ready? && Safe(s) && Step(s, op, s')
    ensures Safe(s')
  {
    hide LinksSafe, QueueOk, BackoffOk;
    if op.ok {
      LinkSafe(s, op.id);
      ReadyQueueOk(s.links[op.id], op.limit);
      ChangedLink(s.links, s.next, op.id, s'.links[op.id]);
      SmallerBackoff(s.backoff, s.links[op.id].peer);
    }
  }

  lemma StepKeepsSafe(s: Node, op: Op, s': Node)
    requires Safe(s) && Step(s, op, s')
    ensures Safe(s')
  {
    hide Safe, Reserved, BackedOff, OneBackedOff, Hear, Accepts;
    match op
    case Reserve(peer, role, now, reserved) => ReserveKeepsSafe(s, peer, role, now, reserved, s');
    case Ready(_, _, _) => ReadyKeepsSafe(s, op, s');
    case Enqueue(_, _, _) => SendKeepsSafe(s, op, s');
    case TakeWrite(_, _) => SendKeepsSafe(s, op, s');
    case Receive(_, _, _, _) => ReceiveKeepsSafe(s, op, s');
    case _ => OtherKeepsSafe(s, op, s');
  }

  lemma OtherKeepsSafe(s: Node, op: Op, s': Node)
    requires (op.SetLocal? || op.Remove? || op.Expire? || op.Poll? || op.ClearLinks?) && Safe(s) && Step(s, op, s')
    ensures Safe(s')
  {
    hide LinksSafe, Expired, BackoffOk, OneBackedOff, BackedOff;
    if op.Remove? && op.id in s.links && op.failed && s.links[op.id].role == Central {
      OneKeepsOk(s.backoff, s.links[op.id].peer, op.now, s'.backoff);
    }
    if op.Expire? { BackedOffMeans(s.backoff, FailedPeers(s.links, op.now), op.now, s'.backoff); }
    FewerLinks(s.links, s.next, s'.links);
  }

  lemma LinkSafe(s: Node, id: nat)
    requires Safe(s) && id in s.links
    ensures QueueOk(s.links[id])
  {
  }

  lemma ReadyQueueOk(l: Link, limit: nat)
    requires QueueOk(l) && limit > 0
    ensures QueueOk(l.(limit := Some(Min(limit, MAX_WRITE))))
  {
  }

  lemma HearQueueOk(l: Link, chunk: seq<Byte>, now: nat)
    requires QueueOk(l)
    ensures QueueOk(Hear(l, chunk, now).link) && Hear(l, chunk, now).link.peer == l.peer
  {
    HearKeepsQueue(l, chunk, now);
  }

  lemma SmallerBackoff(b: map<nat, Wait>, peer: nat)
    requires BackoffOk(b)
    ensures BackoffOk(b - {peer})
  {
    SubsetSize((b - {peer}).Keys, b.Keys);
    assert |b| == |b.Keys| && |b - {peer}| == |(b - {peer}).Keys|;
  }

  // No link to this device, unless its address is changed to that of a peer.
  lemma StepKeepsNotSelf(s: Node, op: Op, s': Node)
    requires NotSelf(s) && Step(s, op, s')
    ensures NotSelf(s') <==> (op.SetLocal? ==> forall i :: i in s.links ==> s.links[i].peer != op.local)
  {
    hide Hear, Expired, BackedOff, OneBackedOff;
    match op
    case Reserve(peer, role, now, _) => if !Blocked(s, peer, role, now) { NotBlocked(s, peer, role, now); }
    case Receive(id, chunk, now, _) => if id in s.links { HearKeepsQueue(s.links[id], chunk, now); }
    case _ =>
  }
}
