// The relay's limiter object: the general request limit with its soft ban,
// the store budget, and the per-mailbox throughput budget.
module RateLimiter {
  import opened Options
  import opened Numbers
  import opened RateWindows

  datatype Policy = Policy(maxKeys: nat, requestsPerMinute: nat, storesPerMinute: nat, storeBytesPerMinute: nat,
                           mailboxBytesPerMinute: nat, banThreshold: nat, banMillis: nat)
  {
    function ForRequests(): Limits { Limits(Some(maxKeys), Some(requestsPerMinute), None) }
    function ForStores(): Limits { Limits(Some(maxKeys), Some(storesPerMinute), Some(storeBytesPerMinute)) }
    function ForMailboxes(): Limits { Limits(None, None, Some(mailboxBytesPerMinute)) }
  }

  datatype Ban = Ban(until: nat, violations: nat)
  type Bans = map<string, Ban>

  // Bans in force and tallies that never became a ban are kept.
  function Retained(bans: Bans, now: nat): Bans {
    map k | k in bans && (bans[k].until > now || (bans[k].until == 0 && bans[k].violations > 0)) :: bans[k]
  }

  predicate Banned(bans: Bans, peer: string, now: nat) { peer in bans && bans[peer].until > now }

  function Violated(p: Policy, bans: Bans, peer: string, now: nat): Bans {
    var was := if peer in bans then bans[peer] else Ban(0, 0);
    var tally := if was.violations < U32_MAX then was.violations + 1 else U32_MAX;
    bans[peer := Ban(if tally >= p.banThreshold then now + p.banMillis else was.until, tally)]
  }

  function Complied(bans: Bans, peer: string): Bans {
    if peer in bans && bans[peer].until == 0 then bans[peer := Ban(0, 0)] else bans
  }

  datatype Request = Request(peer: string, ban: bool, now: nat, prune: bool)
  datatype Gate = Gate(buckets: Windows, bans: Bans)

  // One request against the general limit.
  function Judge(p: Policy, g: Gate, q: Request): (Gate, bool) {
    var bans := Retained(g.bans, q.now);
    if Banned(bans, q.peer, q.now) then (Gate(g.buckets, bans), false)
    else
      var kept := if q.prune then Pruned(g.buckets, q.now) else g.buckets;
      var (buckets, ok) := Admit(p.ForRequests(), g.buckets, q.peer, 0, q.now, q.prune);
      if ok then (Gate(buckets, Complied(bans, q.peer)), true)
      else if q.ban && !Capped(p.ForRequests(), kept, q.peer) then (Gate(buckets, Violated(p, bans, q.peer, q.now)), false)
      else (Gate(buckets, bans), false)
  }

  class Limiter {
    const policy: Policy
    var buckets: Windows
    var stores: Windows
    var mailboxes: Windows
    var bans: Bans
    var prunedAt: nat

    constructor (policy: Policy)
      ensures this.policy == policy
      ensures buckets == map[] && stores == map[] && mailboxes == map[] && bans == map[] && prunedAt == 0
    {
      this.policy := policy;
      buckets, stores, mailboxes, bans, prunedAt := map[], map[], map[], map[], 0;
    }

    // One timestamp serves both rate maps, so whichever asks first in a
    // second is the one that gets pruned.
    method PruneDue(now: nat) returns (due: bool)
      modifies this`prunedAt
      ensures due <==> Since(now, old(prunedAt)) >= 1_000
      ensures prunedAt == if due then now else old(prunedAt)
    {
      due := Since(now, prunedAt) >= PRUNE_MILLIS;
      if due { prunedAt := now; }
    }

    method NoteViolation(peer: string, now: nat)
      modifies this`bans
      ensures bans == Violated(policy, old(bans), peer, now)
    {
      var entry := if peer in bans then bans[peer] else Ban(0, 0);
      entry := entry.(violations := if entry.violations < U32_MAX then entry.violations + 1 else U32_MAX);
      if entry.violations >= policy.banThreshold {
        entry := entry.(until := now + policy.banMillis);
      }
      bans := bans[peer := entry];
    }

    method NoteCompliance(peer: string)
      modifies this`bans
      ensures bans == Complied(old(bans), peer)
    {
      if peer in bans && bans[peer].until == 0 {
        bans := bans[peer := bans[peer].(violations := 0)];
      }
    }

    method AllowRequest(peer: string, ban: bool, now: nat) returns (ok: bool)
      modifies this`buckets, this`bans, this`prunedAt
      ensures var due := Since(now, old(prunedAt)) >= 1_000;
              (Gate(buckets, bans), ok) == Judge(policy, old(Gate(buckets, bans)), Request(peer, ban, now, due))
      // Only a request that gets past the ban prunes, and then not for a second.
      ensures prunedAt == if Since(now, old(prunedAt)) >= 1_000 && !Banned(old(bans), peer, now) then now else old(prunedAt)
    {
      bans := Retained(bans, now);
      if Banned(bans, peer, now) { return false; }
      var due := PruneDue(now);
      var full;
      ok, full := TakeFromBucket(peer, now, due);
      if full { return; }
      if !ok {
        if ban { NoteViolation(peer, now); }
      } else {
        NoteCompliance(peer);
      }
    }

    // The bucket's part of a request; full: the map has no place for a new key.
    method TakeFromBucket(peer: string, now: nat, due: bool) returns (ok: bool, full: bool)
      modifies this`buckets
      ensures (buckets, ok) == Admit(policy.ForRequests(), old(buckets), peer, 0, now, due)
      ensures full <==> Capped(policy.ForRequests(), if due then Pruned(old(buckets), now) else old(buckets), peer)
    {
      if due { buckets := Pruned(buckets, now); }
      full := |buckets| >= policy.maxKeys && peer !in buckets;
      if full { return false, true; }
      var bucket := if peer in buckets then buckets[peer] else Window(now, 0, 0);
      if Since(now, bucket.started) >= WINDOW_MILLIS {
        bucket := Window(now, 0, 0);
      }
      ghost var kept := buckets;
      buckets := buckets[peer := bucket];
      if bucket.count >= policy.requestsPerMinute { return false, false; }
      buckets := buckets[peer := bucket.(count := bucket.count + 1)];
      assert buckets == kept[peer := Window(bucket.started, bucket.count + 1, bucket.bytes + 0)];
      return true, false;
    }

    method AllowStore(peer: string, bytes: nat, now: nat) returns (ok: bool)
      modifies this`stores, this`prunedAt
      ensures (stores, ok) == Admit(policy.ForStores(), old(stores), peer, bytes, now,
                                    Since(now, old(prunedAt)) >= 1_000)
      ensures prunedAt == if Since(now, old(prunedAt)) >= 1_000 then now else old(prunedAt)
    {
      var due := PruneDue(now);
      if due { stores := Pruned(stores, now); }
      if |stores| >= policy.maxKeys && peer !in stores { return false; }
      var window := if peer in stores then stores[peer] else Window(now, 0, 0);
      if Since(now, window.started) >= WINDOW_MILLIS {
        window := Window(now, 0, 0);
      }
      ghost var kept := stores;
      stores := stores[peer := window];
      if window.count >= policy.storesPerMinute || window.bytes + bytes > policy.storeBytesPerMinute {
        return false;
      }
      stores := stores[peer := Window(window.started, window.count + 1, window.bytes + bytes)];
      assert stores == kept[peer := Window(window.started, window.count + 1, window.bytes + bytes)];
      return true;
    }

    // A limit of 0 switches the throughput budget off.
    method AllowMailboxBytes(mailbox: string, bytes: nat, now: nat) returns (ok: bool)
      modifies this`mailboxes
      ensures (mailboxes, ok) == ChargeMailbox(policy, old(mailboxes), mailbox, bytes, now)
    {
      if policy.mailboxBytesPerMinute == 0 { return true; }
      mailboxes := Pruned(mailboxes, now);
      var window := if mailbox in mailboxes then mailboxes[mailbox] else Window(now, 0, 0);
      if Since(now, window.started) >= WINDOW_MILLIS {
        window := Window(now, 0, 0);
      }
      ghost var kept := mailboxes;
      mailboxes := mailboxes[mailbox := window];
      if window.bytes + bytes > policy.mailboxBytesPerMinute {
        return false;
      }
      mailboxes := mailboxes[mailbox := Window(window.started, window.count + 1, window.bytes + bytes)];
      assert mailboxes == kept[mailbox := Window(window.started, window.count + 1, window.bytes + bytes)];
      return true;
    }
  }

  function ChargeMailbox(p: Policy, ws: Windows, mailbox: string, bytes: nat, now: nat): (Windows, bool) {
    if p.mailboxBytesPerMinute == 0 then (ws, true) else Admit(p.ForMailboxes(), ws, mailbox, bytes, now, true)
  }

  // ---- Runs of requests ----------------------------------------------------

  // A history of requests, latest outermost.
  datatype History = New | Asked(earlier: History, q: Request)

  function GateAfter(p: Policy, h: History): Gate {
    match h
    case New => Gate(map[], map[])
    case Asked(earlier, q) => Judge(p, GateAfter(p, earlier), q).0
  }

  predicate Accepted(p: Policy, h: History)
    requires h.Asked?
  {
    Judge(p, GateAfter(p, h.earlier), h.q).1
  }

  // The clock never goes back, and has not passed [now].
  predicate InOrder(h: History, now: nat) {
    h.Asked? ==> h.q.now <= now && InOrder(h.earlier, h.q.now)
  }

  function AcceptedOf(p: Policy, h: History, peer: string, from: int, to: int): nat {
    match h
    case New => 0
    case Asked(earlier, q) =>
      AcceptedOf(p, earlier, peer, from, to) +
      if Accepted(p, h) && q.peer == peer && from <= q.now <= to then 1 else 0
  }

  // The requests a ban did not stop, as calls on the buckets.
  function Reached(p: Policy, h: History): Run {
    match h
    case New => Start
    case Asked(earlier, q) =>
      if Banned(GateAfter(p, earlier).bans, q.peer, q.now) then Reached(p, earlier)
      else Then(Reached(p, earlier), Call(q.peer, 0, q.now, q.prune))
  }

  // A request the ban lets past is one call on the buckets.
  lemma OneCall(p: Policy, g: Gate, q: Request)
    ensures var (g', ok) := Judge(p, g, q);
            if Banned(g.bans, q.peer, q.now) then g'.buckets == g.buckets && !ok
            else (g'.buckets, ok) == Admit(p.ForRequests(), g.buckets, q.peer, 0, q.now, q.prune)
  {
  }

  lemma {:induction false} ReachedAgrees(p: Policy, h: History, now: nat, peer: string, from: int, to: int)
    requires InOrder(h, now)
    ensures GateAfter(p, h).buckets == After(p.ForRequests(), Reached(p, h))
    ensures AcceptedOf(p, h, peer, from, to) == Got(p.ForRequests(), Reached(p, h), peer, Calls, from, to)
    ensures ClockForward(Reached(p, h), now)
  {
    if h.Asked? {
      ReachedAgrees(p, h.earlier, h.q.now, peer, from, to);
      OneCall(p, GateAfter(p, h.earlier), h.q);
    }
  }

  // Twice the per-minute requests at most, over any run and any 60 s.
  lemma RequestBound(p: Policy, h: History, now: nat, peer: string, from: int)
    requires InOrder(h, now)
    ensures AcceptedOf(p, h, peer, from, from + 60_000) <= 2 * p.requestsPerMinute
  {
    ReachedAgrees(p, h, now, peer, from, from + WINDOW_MILLIS);
    SlidingWindowBound(p.ForRequests(), Reached(p, h), now, peer, Calls, from);
  }

  // ---- The soft ban --------------------------------------------------------

  // No one's request, before it ends, lifts or shortens a ban.
  lemma BanPersists(p: Policy, g: Gate, q: Request, peer: string)
    requires peer in g.bans && q.now < g.bans[peer].until
    ensures var (g', ok) := Judge(p, g, q);
            peer in g'.bans && g'.bans[peer] == g.bans[peer] && (q.peer == peer ==> !ok)
  {
  }

  predicate Extends(later: History, h: History) {
    later == h || (later.Asked? && Extends(later.earlier, h))
  }

  // Once banned, a peer gets nothing until the ban ends, whatever it and
  // others send meanwhile.
  lemma {:induction false} SilencedUntil(p: Policy, h: History, later: History, now: nat, peer: string)
    requires Extends(later, h) && InOrder(later, now)
    requires peer in GateAfter(p, h).bans && now < GateAfter(p, h).bans[peer].until
    ensures peer in GateAfter(p, later).bans && GateAfter(p, later).bans[peer] == GateAfter(p, h).bans[peer]
    ensures later != h && later.q.peer == peer ==> !Accepted(p, later)
  {
    if later != h {
      SilencedUntil(p, h, later.earlier, later.q.now, peer);
      BanPersists(p, GateAfter(p, later.earlier), later.q, peer);
    }
  }

  // The times of [peer]'s own requests that count towards a ban.
  function Offences(h: History, peer: string): set<nat> {
    match h
    case New => {}
    case Asked(earlier, q) => Offences(earlier, peer) + if q.peer == peer && q.ban then {q.now} else {}
  }

  // What one request can do to a peer's entry.
  lemma EntryStep(p: Policy, g: Gate, q: Request, peer: string)
    requires peer in Judge(p, g, q).0.bans
    ensures var entry := Judge(p, g, q).0.bans[peer];
            || (peer in g.bans && entry == g.bans[peer])
            || entry == Ban(0, 0)
            || (q.peer == peer && q.ban && (entry.violations >= p.banThreshold ==> entry.until == q.now + p.banMillis))
  {
  }

  // A tally at the threshold is a ban dated from one of the peer's own
  // requests: in no reachable state is it waiting to be noticed.
  lemma {:induction false} ThresholdMeansBan(p: Policy, h: History, peer: string)
    requires p.banThreshold > 0
    requires peer in GateAfter(p, h).bans && GateAfter(p, h).bans[peer].violations >= p.banThreshold
    ensures exists t :: t in Offences(h, peer) && GateAfter(p, h).bans[peer].until == t + p.banMillis
  {
    var was := GateAfter(p, h.earlier);
    EntryStep(p, was, h.q, peer);
    if peer in was.bans && was.bans[peer] == GateAfter(p, h).bans[peer] {
      ThresholdMeansBan(p, h.earlier, peer);
      var t :| t in Offences(h.earlier, peer) && was.bans[peer].until == t + p.banMillis;
      assert t in Offences(h, peer);
    } else {
      assert h.q.now in Offences(h, peer);
    }
  }

  // ---- Tallies that never became a ban ---------------------------------------

  predicate Tallied(bans: Bans, peer: string) { peer in bans && bans[peer].until == 0 && bans[peer].violations > 0 }

  // What one request does to such a tally, however late it comes: anyone
  // else's leaves it alone, and of the peer's own exactly an accepted one
  // clears it; a refused one adds to it, where it counts.
  lemma TallyStep(p: Policy, g: Gate, q: Request, peer: string)
    requires Tallied(g.bans, peer)
    ensures var (g', ok) := Judge(p, g, q);
            && peer in g'.bans
            && (q.peer != peer ==> g'.bans[peer] == g.bans[peer])
            && (g'.bans[peer].violations == 0 <==> q.peer == peer && ok)
            && (q.peer == peer && !ok ==>
                  g'.bans[peer] == g.bans[peer] || g'.bans == Violated(p, Retained(g.bans, q.now), peer, q.now))
  {
  }

  // No request of the peer's own since.
  predicate OthersOnly(later: History, h: History, peer: string) {
    later == h || (later.Asked? && later.q.peer != peer && OthersOnly(later.earlier, h, peer))
  }

  // The tally outlasts any time and any requests of others: it is not dropped.
  lemma {:induction false} TallyOutlasts(p: Policy, h: History, later: History, peer: string)
    requires OthersOnly(later, h, peer) && Tallied(GateAfter(p, h).bans, peer)
    ensures peer in GateAfter(p, later).bans && GateAfter(p, later).bans[peer] == GateAfter(p, h).bans[peer]
  {
    if later != h {
      hide Judge;
      TallyOutlasts(p, h, later.earlier, peer);
      TallyStep(p, GateAfter(p, later.earlier), later.q, peer);
    }
  }

  function Name(i: nat): string { seq(i, j => 'a') }

  // One peer's requests, n of them at one time.
  function Burst(h: History, peer: string, now: nat, n: nat): History {
    if n == 0 then h else Asked(Burst(h, peer, now, n - 1), Request(peer, true, now, n == 1))
  }

  // Peer after peer, two minutes apart, each one request over its limit.
  function Crowd(p: Policy, n: nat): History {
    if n == 0 then New else Burst(Crowd(p, n - 1), Name(n), STALE_MILLIS * n, p.requestsPerMinute + 1)
  }

  ghost predicate Crowded(g: Gate, n: nat) {
    && (forall k :: k in g.bans ==> |k| <= n && g.bans[k] == Ban(0, 1))
    && forall k :: k in g.buckets ==> g.buckets[k].started <= STALE_MILLIS * n
  }

  // The k-th such request of a peer not tallied yet: accepted up to the limit,
  // then refused and tallied; everyone else's tally is still there.
  lemma OneOfBurst(p: Policy, g: Gate, peer: string, now: nat, k: nat)
    requires p.maxKeys > 0 && p.banThreshold > 1 && k <= p.requestsPerMinute
    requires if k == 0 then Pruned(g.buckets, now) == map[] else g.buckets == map[peer := Window(now, k, 0)]
    requires peer !in g.bans && forall b :: b in g.bans ==> g.bans[b] == Ban(0, 1)
    ensures Judge(p, g, Request(peer, true, now, k == 0)).0 ==
            if k < p.requestsPerMinute then Gate(map[peer := Window(now, k + 1, 0)], g.bans)
            else Gate(map[peer := Window(now, k, 0)], g.bans[peer := Ban(0, 1)])
  {
    var kept: Windows := if k == 0 then map[] else g.buckets;
    var w := Window(now, k, 0);
    assert Current(kept, peer, now) == w;
    assert kept[peer := w] == map[peer := w];
    assert kept[peer := Window(now, k + 1, 0)] == map[peer := Window(now, k + 1, 0)];
    assert Retained(g.bans, now) == g.bans;
    assert Violated(p, g.bans, peer, now) == g.bans[peer := Ban(0, 1)];
  }

  lemma {:induction false} BurstTallies(p: Policy, h: History, peer: string, now: nat, n: nat)
    requires p.maxKeys > 0 && p.banThreshold > 1 && n <= p.requestsPerMinute
    requires Pruned(GateAfter(p, h).buckets, now) == map[]
    requires peer !in GateAfter(p, h).bans && forall b :: b in GateAfter(p, h).bans ==> GateAfter(p, h).bans[b] == Ban(0, 1)
    ensures var bans := GateAfter(p, h).bans;
            GateAfter(p, Burst(h, peer, now, n + 1)) ==
              if n < p.requestsPerMinute then Gate(map[peer := Window(now, n + 1, 0)], bans)
              else Gate(map[peer := Window(now, n, 0)], bans[peer := Ban(0, 1)])
  {
    hide Judge, Pruned;
    if n > 0 { BurstTallies(p, h, peer, now, n - 1); }
    OneOfBurst(p, GateAfter(p, Burst(h, peer, now, n)), peer, now, n);
  }

  lemma {:induction false} BurstInOrder(h: History, peer: string, now: nat, n: nat)
    requires InOrder(h, now)
    ensures InOrder(Burst(h, peer, now, n), now)
  {
    if n > 0 { BurstInOrder(h, peer, now, n - 1); }
  }

  lemma LaterInOrder(h: History, now: nat, later: nat)
    requires InOrder(h, now) && now <= later
    ensures InOrder(h, later)
  {
  }

  lemma OneMoreBan(bans: Bans, peer: string, ban: Ban)
    requires peer !in bans
    ensures |bans[peer := ban]| == |bans| + 1
  {
    assert bans[peer := ban].Keys == bans.Keys + {peer};
    assert |bans[peer := ban]| == |bans[peer := ban].Keys| && |bans| == |bans.Keys|;
  }

  lemma CrowdGrows(g: Gate, n: nat, count: nat)
    requires n > 0 && Crowded(g, n - 1)
    ensures Crowded(Gate(map[Name(n) := Window(STALE_MILLIS * n, count, 0)], g.bans[Name(n) := Ban(0, 1)]), n)
  {
    assert |Name(n)| == n;
    hide Name;
  }

  lemma CrowdedTallies(g: Gate, n: nat)
    requires n > 0 && Crowded(g, n - 1)
    ensures Name(n) !in g.bans && (forall k :: k in g.bans ==> g.bans[k] == Ban(0, 1))
    ensures Pruned(g.buckets, STALE_MILLIS * n) == map[]
  {
  }

  // So the ban map is not bounded, by the key cap or by time: whatever the
  // policy, unless it caps the keys at none or bans at the first violation,
  // there are clock-ordered requests that leave n tallies, for every n.
  lemma {:induction false} TalliesPileUp(p: Policy, n: nat)
    requires p.maxKeys > 0 && p.banThreshold > 1
    ensures InOrder(Crowd(p, n), STALE_MILLIS * n) && |GateAfter(p, Crowd(p, n)).bans| == n
    ensures Crowded(GateAfter(p, Crowd(p, n)), n)
  {
    hide Judge, Crowded, Name, GateAfter, InOrder, Burst, Pruned;
    if n > 0 {
      TalliesPileUp(p, n - 1);
      var g, now := GateAfter(p, Crowd(p, n - 1)), STALE_MILLIS * n;
      CrowdedTallies(g, n);
      BurstTallies(p, Crowd(p, n - 1), Name(n), now, p.requestsPerMinute);
      OneMoreBan(g.bans, Name(n), Ban(0, 1));
      CrowdGrows(g, n, p.requestsPerMinute);
      LaterInOrder(Crowd(p, n - 1), STALE_MILLIS * (n - 1), now);
      BurstInOrder(Crowd(p, n - 1), Name(n), now, p.requestsPerMinute + 1);
    } else {
      NoCrowd(p);
    }
  }

  lemma NoCrowd(p: Policy)
    ensures InOrder(Crowd(p, 0), 0) && Crowded(GateAfter(p, Crowd(p, 0)), 0) && |GateAfter(p, Crowd(p, 0)).bans| == 0
  {
    assert GateAfter(p, Crowd(p, 0)) == Gate(map[], map[]);
  }

  // Where no key fits, none is tallied.
  lemma {:induction false} NoKeysNoTallies(p: Policy, h: History)
    requires p.maxKeys == 0
    ensures GateAfter(p, h) == Gate(map[], map[])
  {
    if h.Asked? {
      NoKeysNoTallies(p, h.earlier);
      assert Pruned(map[], h.q.now) == map[] && Retained(map[], h.q.now) == map[];
    }
  }
}
