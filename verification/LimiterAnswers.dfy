// What the limiter lets through and what becomes of each peer's tally and ban,
// in the peer's own requests.
module LimiterAnswers {
  import opened Options
  import opened Numbers
  import opened RateWindows
  import opened RateLimiter

  // ---- Windows -----------------------------------------------------------------------

  // Nobody is refused who stays within the limits: a call is let through if,
  // with what its key got in the last minute, it is within them, and the map
  // has a place.
  lemma WithinLimitsPasses(l: Limits, run: Run)
    requires run.Then? && ClockForward(run, run.call.now)
    requires l.maxKeys.Some? ==> |After(l, run.earlier)| < l.maxKeys.value
    requires var c := run.call;
             && (l.maxCount.Some? ==> Got(l, run.earlier, c.key, Calls, c.now - 59_999, c.now) < l.maxCount.value)
             && (l.maxBytes.Some? ==> Got(l, run.earlier, c.key, Volume, c.now - 59_999, c.now) + c.bytes <= l.maxBytes.value)
    ensures LetThrough(l, run)
  {
    hide After, Got, RateWindows.Tallied, Faithful;
    var c, head := run.call, run.earlier;
    var kept := Kept(l, run);
    var w := Current(kept, c.key, c.now);
    AlwaysFaithful(l, head, c.key, Calls, c.now);
    AlwaysFaithful(l, head, c.key, Volume, c.now);
    BeforeCall(l, head, c.key, Calls, c.now, c.prune);
    BeforeCall(l, head, c.key, Volume, c.now, c.prune);
    TallyWithin(l, head, c.key, Calls, w, c.now);
    TallyWithin(l, head, c.key, Volume, w, c.now);
    FewerKept(After(l, head), c.now);
    WindowAfter(l, run, c.key);
  }

  lemma TallyWithin(l: Limits, run: Run, key: string, m: Measure, w: Window, now: nat)
    requires RateWindows.Tallied(l, run, key, m, w, now) && now < w.started + WINDOW_MILLIS
    ensures w.Tally(m) <= Got(l, run, key, m, now - 59_999, now)
  {
    hide Got;
    GotGrows(l, run, key, m, w.started, now, now - 59_999, now);
  }

  lemma FewerKept(ws: Windows, now: nat)
    ensures |Pruned(ws, now)| <= |ws|
  {
    SubsetSize(Pruned(ws, now).Keys, ws.Keys);
    assert |Pruned(ws, now)| == |Pruned(ws, now).Keys| && |ws| == |ws.Keys|;
  }

  // Pruning takes out exactly the windows opened two minutes ago or before.
  lemma PrunesExactly(ws: Windows, now: nat)
    ensures forall k :: k in Pruned(ws, now) <==> k in ws && now < ws[k].started + 120_000
    ensures forall k :: k in Pruned(ws, now) ==> Pruned(ws, now)[k] == ws[k]
  {
  }

  // A mailbox budget of 0 is none; any other is a limit on bytes alone, with a
  // place for every mailbox.
  lemma ChargeExactly(p: Policy, ws: Windows, mailbox: string, bytes: nat, now: nat)
    ensures ChargeMailbox(p, ws, mailbox, bytes, now) ==
            if p.mailboxBytesPerMinute > 0 then Admit(Limits(None, None, Some(p.mailboxBytesPerMinute)), ws, mailbox, bytes, now, true)
            else (ws, true)
  {
  }

  // ---- Tallies and bans -----------------------------------------------------------------

  predicate InForce(bans: Bans, peer: string, now: nat) { peer in bans && bans[peer].until > now }

  // What was refused before: no ban over or in force, but refusals since the
  // last accepted request.
  function Strikes(bans: Bans, peer: string): nat {
    if peer in bans && bans[peer].until == 0 then bans[peer].violations else 0
  }

  // Every other peer: a ban in force and a tally stay, an expired ban goes.
  lemma OthersExactly(p: Policy, g: Gate, q: Request, peer: string)
    requires peer != q.peer
    ensures var bans := Judge(p, g, q).0.bans;
            && (peer in bans <==> InForce(g.bans, peer, q.now) || Strikes(g.bans, peer) > 0)
            && (peer in bans ==> bans[peer] == g.bans[peer])
  {
  }

  // The peer itself: in force, its ban refuses it and stays. Otherwise a
  // refusal that counts is one more strike, and at the threshold a ban from now;
  // an accepted request leaves none.
  lemma OwnExactly(p: Policy, g: Gate, q: Request)
    ensures var (g', ok) := Judge(p, g, q);
            var kept := if q.prune then Pruned(g.buckets, q.now) else g.buckets;
            var full := |kept| >= p.maxKeys && q.peer !in kept;
            var strikes := Strikes(g.bans, q.peer);
            if InForce(g.bans, q.peer, q.now) then !ok && q.peer in g'.bans && g'.bans[q.peer] == g.bans[q.peer]
            else if ok then q.peer !in g'.bans || g'.bans[q.peer] == Ban(0, 0)
            else if q.ban && !full then
              && q.peer in g'.bans
              && g'.bans[q.peer].violations == Saturated(strikes + 1, U32_MAX)
              && g'.bans[q.peer].until == if Saturated(strikes + 1, U32_MAX) >= p.banThreshold then q.now + p.banMillis else 0
            else Strikes(g'.bans, q.peer) == strikes && (q.peer in g'.bans <==> strikes > 0)
  {
    hide Admit, Pruned;
  }

  // Since h the peer was refused n times, each time for its own rate.
  ghost predicate Refused(p: Policy, later: History, h: History, peer: string, n: nat) {
    if later == h then n == 0
    else
      && later.Asked?
      && if later.q.peer != peer then Refused(p, later.earlier, h, peer, n)
         else n > 0 && Refused(p, later.earlier, h, peer, n - 1) && CountsAgainst(p, later)
  }

  ghost predicate CountsAgainst(p: Policy, h: History)
    requires h.Asked?
  {
    var g := GateAfter(p, h.earlier);
    var kept := if h.q.prune then Pruned(g.buckets, h.q.now) else g.buckets;
    !Accepted(p, h) && h.q.ban && !(|kept| >= p.maxKeys && h.q.peer !in kept)
  }

  // One more strike against a peer that has n - 1.
  lemma OneMoreStrike(p: Policy, h: History, n: nat)
    requires h.Asked? && CountsAgainst(p, h) && 0 < n <= p.banThreshold <= U32_MAX
    requires var bans := GateAfter(p, h.earlier).bans;
             if n == 1 then h.q.peer !in bans else h.q.peer in bans && bans[h.q.peer] == Ban(0, n - 1)
    ensures var bans := GateAfter(p, h).bans;
            h.q.peer in bans && bans[h.q.peer] == if n < p.banThreshold then Ban(0, n) else Ban(h.q.now + p.banMillis, n)
  {
    hide Judge, Pruned;
    OwnExactly(p, GateAfter(p, h.earlier), h.q);
  }

  lemma {:induction false} StruckBefore(p: Policy, h: History, later: History, peer: string, n: nat)
    requires Refused(p, later, h, peer, n) && n < p.banThreshold <= U32_MAX && peer !in GateAfter(p, h).bans
    ensures var bans := GateAfter(p, later).bans; if n == 0 then peer !in bans else peer in bans && bans[peer] == Ban(0, n)
  {
    if later != h {
      hide Judge, CountsAgainst;
      if later.q.peer != peer {
        StruckBefore(p, h, later.earlier, peer, n);
        OthersExactly(p, GateAfter(p, later.earlier), later.q, peer);
      } else {
        StruckBefore(p, h, later.earlier, peer, n - 1);
        OneMoreStrike(p, later, n);
      }
    }
  }

  // A peer with no strikes against it is banned by exactly its threshold-th
  // refusal in a row, from that request's time on, whatever others send.
  lemma BannedAtThreshold(p: Policy, h: History, later: History, peer: string, n: nat)
    requires Refused(p, later, h, peer, n) && n <= p.banThreshold <= U32_MAX && peer !in GateAfter(p, h).bans
    requires 0 < n && later != h && later.q.peer == peer
    ensures var bans := GateAfter(p, later).bans;
            peer in bans && bans[peer] == if n < p.banThreshold then Ban(0, n) else Ban(later.q.now + p.banMillis, n)
  {
    hide Judge, CountsAgainst, GateAfter;
    StruckBefore(p, h, later.earlier, peer, n - 1);
    OneMoreStrike(p, later, n);
  }

  // Once a ban is over, the next request of anyone leaves no trace of it.
  lemma BanForgotten(p: Policy, g: Gate, q: Request, peer: string)
    requires peer in g.bans && 0 < g.bans[peer].until <= q.now && peer != q.peer
    ensures peer !in Judge(p, g, q).0.bans
  {
    OthersExactly(p, g, q, peer);
  }
}
