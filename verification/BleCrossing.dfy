// Two devices that dial each other. Connections are numbered when their dialler
// reserves them; each end's links carry the number of the connection they are for.
module BleCrossing {
  import opened Options
  import opened Numbers
  import opened BleLinks
  import opened BleRuns

  // Low has the lower address.
  datatype Side = Low | High

  // dialled: who dialled each connection. lowIs, highIs: the connection of a link id.
  datatype Pair = Pair(low: Node, high: Node, dialled: map<nat, Side>, lowIs: map<nat, nat>, highIs: map<nat, nat>)
  {
    function At(side: Side): Node { if side.Low? then low else high }

    function Is(side: Side): map<nat, nat> { if side.Low? then lowIs else highIs }

    function Other(side: Side): nat { if side.Low? then high.local else low.local }

    function With(side: Side, node: Node, links: map<nat, nat>): Pair {
      if side.Low? then this.(low := node, lowIs := links) else this.(high := node, highIs := links)
    }
  }

  datatype Act =
    | Dial(side: Side, c: nat, now: nat, r: Option<nat>)
    | Accept(side: Side, c: nat, now: nat, r: Option<nat>)
    | Apart(side: Side, op: Op)

  function Labelled(links: map<nat, nat>, r: Option<nat>, c: nat): map<nat, nat> {
    if r.Some? then links[r.value := c] else links
  }

  ghost predicate Moves(p: Pair, a: Act, p': Pair) {
    match a
    case Dial(side, c, now, r) =>
      exists node ::
        && c !in p.dialled && Step(p.At(side), Reserve(p.Other(side), Central, now, r), node)
        && p' == p.With(side, node, Labelled(p.Is(side), r, c)).(dialled := p.dialled[c := side])
    case Accept(side, c, now, r) =>
      exists node ::
        && c in p.dialled && p.dialled[c] != side && Step(p.At(side), Reserve(p.Other(side), Peripheral, now, r), node)
        && p' == p.With(side, node, Labelled(p.Is(side), r, c))
    // anything else one device does, but for changing its address
    case Apart(side, op) =>
      exists node ::
        && !op.SetLocal? && !(op.Reserve? && op.peer == p.Other(side)) && Step(p.At(side), op, node)
        && p' == p.With(side, node, p.Is(side))
  }

  // The act as an operation at its own side.
  function OpOf(p: Pair, a: Act): Op {
    match a
    case Dial(side, _, now, r) => Reserve(p.Other(side), Central, now, r)
    case Accept(side, _, now, r) => Reserve(p.Other(side), Peripheral, now, r)
    case Apart(_, op) => op
  }

  ghost predicate Meets(p: Pair) {
    Safe(p.low) && Safe(p.high) && p.low.local < p.high.local
  }

  // Both ends hold connection c, dialled by the lower address, as these links.
  ghost predicate Joined(p: Pair, c: nat, i: nat, j: nat) {
    && c in p.dialled && p.dialled[c] == Low
    && Holds(p.low, i, p.high.local, Central) && i in p.lowIs && p.lowIs[i] == c
    && Holds(p.high, j, p.low.local, Peripheral) && j in p.highIs && p.highIs[j] == c
  }

  ghost predicate SparesBoth(p: Pair, a: Act, i: nat, j: nat) {
    Spares(p.At(a.side), OpOf(p, a), if a.side.Low? then i else j)
  }

  lemma MovesStep(p: Pair, a: Act, p': Pair)
    requires Moves(p, a, p')
    ensures Step(p.At(a.side), OpOf(p, a), p'.At(a.side))
    ensures a.side.Low? ==> p'.high == p.high && p'.highIs == p.highIs
    ensures a.side.High? ==> p'.low == p.low && p'.lowIs == p.lowIs
    ensures forall c :: c in p.dialled ==> c in p'.dialled && p'.dialled[c] == p.dialled[c]
    ensures a.Apart? ==> p'.Is(a.side) == p.Is(a.side)
    ensures !a.Apart? ==> p'.Is(a.side) == Labelled(p.Is(a.side), a.r, a.c)
  {
    hide Step;
  }

  lemma FreshId(s: Node, peer: nat, role: Role, now: nat, r: Option<nat>, s': Node, id: nat)
    requires Safe(s) && id in s.links && Step(s, Reserve(peer, role, now, r), s')
    ensures r != Some(id)
  {
    hide BackedOff, Blocked, QueueOk, Expired;
  }

  // One move keeps them joined, by the same connection and the same links.
  lemma MoveKeepsJoined(p: Pair, a: Act, p': Pair, c: nat, i: nat, j: nat)
    requires Meets(p) && Moves(p, a, p') && SparesBoth(p, a, i, j) && Joined(p, c, i, j)
    ensures Meets(p') && Joined(p', c, i, j)
  {
    hide Step, Safe, Spares;
    MovesStep(p, a, p');
    var op, s, s' := OpOf(p, a), p.At(a.side), p'.At(a.side);
    StepKeepsSafe(s, op, s');
    if a.side.Low? {
      PreferredStays(s, op, s', i, p.high.local);
      if op.Reserve? { FreshId(s, op.peer, op.role, op.now, op.reserved, s', i); }
    } else {
      PreferredStays(s, op, s', j, p.low.local);
      if op.Reserve? { FreshId(s, op.peer, op.role, op.now, op.reserved, s', j); }
    }
  }

  datatype History = From(start: Pair) | Then(earlier: History, act: Act, after: Pair)
  {
    function Now(): Pair { if From? then start else after }
  }

  // Moves of either device, in any order, none of which ends link i or j.
  ghost predicate Sparing(h: History, i: nat, j: nat) {
    h.Then? ==> Sparing(h.earlier, i, j) && Moves(h.earlier.Now(), h.act, h.after) && SparesBoth(h.earlier.Now(), h.act, i, j)
  }

  function Origin(h: History): Pair { if h.From? then h.start else Origin(h.earlier) }

  // Once the lower address's connection is reserved at both ends they hold
  // that same connection, and no other to each other, however they go on.
  lemma {:induction false} SameConnection(h: History, c: nat, i: nat, j: nat)
    requires Sparing(h, i, j) && Meets(Origin(h)) && Joined(Origin(h), c, i, j)
    ensures Meets(h.Now()) && Joined(h.Now(), c, i, j)
    ensures forall k :: HeldFor(h.Now().low, h.Now().high.local, k) ==> k == i
    ensures forall k :: HeldFor(h.Now().high, h.Now().low.local, k) ==> k == j
  {
    if h.Then? {
      hide Moves, SparesBoth, Meets, Joined;
      SameConnection(h.earlier, c, i, j);
      MoveKeepsJoined(h.earlier.Now(), h.act, h.after, c, i, j);
    }
    OnlyThese(h.Now(), c, i, j);
  }

  lemma OnlyThese(p: Pair, c: nat, i: nat, j: nat)
    requires Meets(p) && Joined(p, c, i, j)
    ensures forall k :: HeldFor(p.low, p.high.local, k) ==> k == i
    ensures forall k :: HeldFor(p.high, p.low.local, k) ==> k == j
  {
    hide QueueOk, BackoffOk;
  }

  // Dials that crossed: when the higher address accepts the lower one's
  // connection it gives up its own, and they are joined; and the lower one
  // refuses the other's.
  lemma CrossingResolves(p: Pair, c: nat, d: nat, i: nat, own: nat, now: nat, r: Option<nat>, p': Pair)
    requires Meets(p) && NotSelf(p.high) && p.high.next < U64_MAX
    requires c in p.dialled && p.dialled[c] == Low && d in p.dialled && p.dialled[d] == High
    requires Holds(p.low, i, p.high.local, Central) && i in p.lowIs && p.lowIs[i] == c
    requires Holds(p.high, own, p.low.local, Central) && own in p.highIs && p.highIs[own] == d
    requires Moves(p, Accept(High, c, now, r), p')
    ensures r.Some? && Meets(p') && Joined(p', c, i, r.value) && own !in p'.high.links
  {
    hide Step, Safe;
    MovesStep(p, Accept(High, c, now, r), p');
    StepKeepsSafe(p.high, Reserve(p.low.local, Peripheral, now, r), p'.high);
    PreferredTakesOver(p.high, p.low.local, now, r, p'.high, own);
    ReserveKeepsLocal(p.high, p.low.local, Peripheral, now, r, p'.high);
  }

  lemma ReserveKeepsLocal(s: Node, peer: nat, role: Role, now: nat, r: Option<nat>, s': Node)
    requires Step(s, Reserve(peer, role, now, r), s')
    ensures s'.local == s.local
  {
    hide BackedOff, Blocked, Expired;
  }

  lemma LowerRefuses(p: Pair, d: nat, i: nat, now: nat, r: Option<nat>, p': Pair)
    requires Meets(p) && Holds(p.low, i, p.high.local, Central)
    requires Moves(p, Accept(Low, d, now, r), p')
    ensures r.None? && p'.low == p.low && p'.lowIs == p.lowIs
  {
    hide Safe;
    MovesStep(p, Accept(Low, d, now, r), p');
    assert HeldFor(p.low, p.high.local, i);
  }
}
