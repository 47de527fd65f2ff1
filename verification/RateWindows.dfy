// The relay's per-minute windows and its soft ban. One fixed-window rule
// serves the request buckets, the store windows and the per-mailbox byte
// windows; the three differ only in their limits.
module RateWindows {
  import opened Options

  const WINDOW_MILLIS := 60_000
  const STALE_MILLIS := 120_000
  const PRUNE_MILLIS := 1_000

  // What a window tallies.
  datatype Measure = Calls | Volume

  datatype Window = Window(started: nat, count: nat, bytes: nat)
  {
    function Tally(m: Measure): nat { if m.Calls? then count else bytes }
  }

  type Windows = map<string, Window>

  // maxKeys None: the map is not capped; maxCount or maxBytes None: that
  // quantity is not limited.
  datatype Limits = Limits(maxKeys: Option<nat>, maxCount: Option<nat>, maxBytes: Option<nat>)
  {
    predicate Room(w: Window, bytes: nat) {
      && (maxCount.Some? ==> w.count < maxCount.value)
      && (maxBytes.Some? ==> w.bytes + bytes <= maxBytes.value)
    }

    function Max(m: Measure): Option<nat> { if m.Calls? then maxCount else maxBytes }

    predicate Within(got: nat, m: Measure) { Max(m).Some? ==> got <= Max(m).value }

    predicate WithinTwice(got: nat, m: Measure) { Max(m).Some? ==> got <= 2 * Max(m).value }
  }

  // saturating_sub
  function Since(now: nat, earlier: nat): nat { if now < earlier then 0 else now - earlier }

  function Pruned(ws: Windows, now: nat): Windows {
    map k | k in ws && Since(now, ws[k].started) < STALE_MILLIS :: ws[k]
  }

  function Current(ws: Windows, key: string, now: nat): Window {
    if key in ws && Since(now, ws[key].started) < WINDOW_MILLIS then ws[key] else Window(now, 0, 0)
  }

  predicate Capped(l: Limits, ws: Windows, key: string) {
    l.maxKeys.Some? && |ws| >= l.maxKeys.value && key !in ws
  }

  // One call: the new windows, and whether it was let through.
  function Admit(l: Limits, ws: Windows, key: string, bytes: nat, now: nat, prune: bool): (Windows, bool) {
    var kept := if prune then Pruned(ws, now) else ws;
    if Capped(l, kept, key) then (kept, false)
    else
      var w := Current(kept, key, now);
      if l.Room(w, bytes) then (kept[key := Window(w.started, w.count + 1, w.bytes + bytes)], true)
      else (kept[key := w], false)
  }

  // ---- Sliding-window bound ------------------------------------------------

  datatype Call = Call(key: string, bytes: nat, now: nat, prune: bool)

  // A history, latest call outermost.
  datatype Run = Start | Then(earlier: Run, call: Call)

  function After(l: Limits, run: Run): Windows {
    match run
    case Start => map[]
    case Then(earlier, c) => Admit(l, After(l, earlier), c.key, c.bytes, c.now, c.prune).0
  }

  // Whether the last call of the run was let through.
  predicate LetThrough(l: Limits, run: Run)
    requires run.Then?
  {
    var c := run.call;
    Admit(l, After(l, run.earlier), c.key, c.bytes, c.now, c.prune).1
  }

  // What [key] got through in [from, to].
  function Got(l: Limits, run: Run, key: string, m: Measure, from: int, to: int): nat {
    match run
    case Start => 0
    case Then(earlier, c) =>
      Got(l, earlier, key, m, from, to) +
      if LetThrough(l, run) && c.key == key && from <= c.now <= to
      then if m.Calls? then 1 else c.bytes
      else 0
  }

  // The clock never goes back, and has not passed [now].
  predicate ClockForward(run: Run, now: nat) {
    run.Then? ==> run.call.now <= now && ClockForward(run.earlier, run.call.now)
  }

  // What the windows know about one key: everything since the window opened
  // is in its tally and came within its minute, the minute before it opened
  // holds at most one limit's worth, and a key without a window got nothing
  // for a minute.
  ghost predicate Faithful(l: Limits, run: Run, key: string, m: Measure, now: nat) {
    var ws := After(l, run);
    if key in ws then
      var w := ws[key];
      && Tallied(l, run, key, m, w, now)
      && Got(l, run, key, m, w.started + WINDOW_MILLIS, now) == 0
    else
      Got(l, run, key, m, now - WINDOW_MILLIS, now) == 0
  }

  ghost predicate Tallied(l: Limits, run: Run, key: string, m: Measure, w: Window, now: nat) {
    && w.started <= now
    && Got(l, run, key, m, w.started, now) == w.Tally(m)
    && l.Within(w.Tally(m), m)
    && l.Within(Got(l, run, key, m, w.started - WINDOW_MILLIS, w.started - 1), m)
  }

  lemma {:induction false} GotSplits(l: Limits, run: Run, key: string, m: Measure, a: int, b: int, c: int)
    requires a <= b + 1 && b <= c
    ensures Got(l, run, key, m, a, c) == Got(l, run, key, m, a, b) + Got(l, run, key, m, b + 1, c)
  {
    if run.Then? { GotSplits(l, run.earlier, key, m, a, b, c); }
  }

  lemma {:induction false} GotGrows(l: Limits, run: Run, key: string, m: Measure, a: int, b: int, c: int, d: int)
    requires c <= a && b <= d
    ensures Got(l, run, key, m, a, b) <= Got(l, run, key, m, c, d)
  {
    if run.Then? { GotGrows(l, run.earlier, key, m, a, b, c, d); }
  }

  lemma {:induction false} NothingLater(l: Limits, run: Run, key: string, m: Measure, now: nat, to: int)
    requires ClockForward(run, now)
    ensures Got(l, run, key, m, now + 1, to) == 0
  {
    if run.Then? {
      NothingLater(l, run.earlier, key, m, run.call.now, to);
      GotGrows(l, run.earlier, key, m, now + 1, to, run.call.now + 1, to);
    }
  }

  // Time passing, for a key that has a window.
  lemma TalliedLater(l: Limits, run: Run, key: string, m: Measure, w: Window, now: nat, later: nat)
    requires ClockForward(run, now) && now <= later
    requires Tallied(l, run, key, m, w, now) && Got(l, run, key, m, w.started + WINDOW_MILLIS, now) == 0
    ensures Tallied(l, run, key, m, w, later) && Got(l, run, key, m, w.started + WINDOW_MILLIS, later) == 0
  {
    hide Got, ClockForward;
    NothingLater(l, run, key, m, now, later);
    GotSplits(l, run, key, m, w.started, now, later);
    var end := w.started + WINDOW_MILLIS;
    if end <= now + 1 { GotSplits(l, run, key, m, end, now, later); }
    else { GotGrows(l, run, key, m, end, later, now + 1, later); }
  }

  // And for one that has none.
  lemma NothingYet(l: Limits, run: Run, key: string, m: Measure, now: nat, later: nat)
    requires ClockForward(run, now) && now <= later
    requires Got(l, run, key, m, now - WINDOW_MILLIS, now) == 0
    ensures Got(l, run, key, m, later - WINDOW_MILLIS, later) == 0
  {
    hide Got, ClockForward;
    NothingLater(l, run, key, m, now, later);
    var from := later - WINDOW_MILLIS;
    if from <= now {
      GotSplits(l, run, key, m, from, now, later);
      GotGrows(l, run, key, m, from, now, now - WINDOW_MILLIS, now);
    } else {
      GotGrows(l, run, key, m, from, later, now + 1, later);
    }
  }

  // The invariant at the last call holds at any later time.
  lemma FaithfulLater(l: Limits, run: Run, key: string, m: Measure, now: nat, later: nat)
    requires ClockForward(run, now)
    requires Faithful(l, run, key, m, now) && now <= later
    ensures Faithful(l, run, key, m, later)
  {
    hide After, Got, Tallied, ClockForward;
    var ws := After(l, run);
    if key in ws {
      TalliedLater(l, run, key, m, ws[key], now, later);
    } else {
      NothingYet(l, run, key, m, now, later);
    }
  }

  // A window opened by a call at [now]: the old one, if any, is a minute old.
  lemma FreshWindow(l: Limits, run: Run, key: string, m: Measure, now: nat, started: nat)
    requires Got(l, run, key, m, started + WINDOW_MILLIS, now) == 0
    requires l.Within(Got(l, run, key, m, started, now), m)
    requires now - started >= WINDOW_MILLIS
    ensures Tallied(l, run, key, m, Window(now, 0, 0), now)
  {
    GotGrows(l, run, key, m, now, now, started + WINDOW_MILLIS, now);
    GotGrows(l, run, key, m, now - WINDOW_MILLIS, now - 1, started, now);
  }

  lemma FirstWindow(l: Limits, run: Run, key: string, m: Measure, now: nat)
    requires Got(l, run, key, m, now - WINDOW_MILLIS, now) == 0
    ensures Tallied(l, run, key, m, Window(now, 0, 0), now)
  {
    GotGrows(l, run, key, m, now, now, now - WINDOW_MILLIS, now);
    GotGrows(l, run, key, m, now - WINDOW_MILLIS, now - 1, now - WINDOW_MILLIS, now);
  }

  // Just before a call, after its pruning: the window the call will use.
  lemma BeforeCall(l: Limits, run: Run, key: string, m: Measure, now: nat, prune: bool)
    requires Faithful(l, run, key, m, now)
    ensures var ws := After(l, run);
            var kept := if prune then Pruned(ws, now) else ws;
            var w := Current(kept, key, now);
            && Tallied(l, run, key, m, w, now) && now < w.started + WINDOW_MILLIS
            && (key !in kept ==> Got(l, run, key, m, now - WINDOW_MILLIS, now) == 0)
            && (key in kept ==> Got(l, run, key, m, kept[key].started + WINDOW_MILLIS, now) == 0)
  {
    hide After, Got;
    var ws := After(l, run);
    if key in ws && now - ws[key].started < WINDOW_MILLIS {
      assert Tallied(l, run, key, m, ws[key], now);
    } else if key in ws {
      FreshWindow(l, run, key, m, now, ws[key].started);
      if now - ws[key].started >= STALE_MILLIS {
        GotGrows(l, run, key, m, now - WINDOW_MILLIS, now, ws[key].started + WINDOW_MILLIS, now);
      }
    } else {
      FirstWindow(l, run, key, m, now);
    }
  }

  function Kept(l: Limits, run: Run): Windows
    requires run.Then?
  {
    var ws := After(l, run.earlier);
    if run.call.prune then Pruned(ws, run.call.now) else ws
  }

  // The call's effect on its own key's window, and on any other's.
  lemma WindowAfter(l: Limits, run: Run, key: string)
    requires run.Then?
    ensures var last := run.call;
            var kept, ws := Kept(l, run), After(l, run);
            var w := Current(kept, key, last.now);
            if last.key != key || Capped(l, kept, key) then
              && (key in ws <==> key in kept)
              && (key in kept ==> ws[key] == kept[key])
              && (last.key == key ==> !LetThrough(l, run))
            else
              && key in ws
              && ws[key] == (if LetThrough(l, run) then Window(w.started, w.count + 1, w.bytes + last.bytes) else w)
              && (LetThrough(l, run) <==> l.Room(w, last.bytes))
  {
  }

  lemma OtherWindow(l: Limits, run: Run, key: string, m: Measure)
    requires run.Then?
    requires Faithful(l, run.earlier, key, m, run.call.now)
    requires run.call.key != key || Capped(l, Kept(l, run), key)
    ensures Faithful(l, run, key, m, run.call.now)
  {
    hide After;
    var head, last := run.earlier, run.call;
    var kept := Kept(l, run);
    WindowAfter(l, run, key);
    if key in kept {
      var w := After(l, head)[key];
      assert kept[key] == w && Tallied(l, head, key, m, w, last.now);
      assert Tallied(l, run, key, m, w, last.now);
    } else {
      BeforeCall(l, head, key, m, last.now, last.prune);
    }
  }

  lemma FaithfulCall(l: Limits, run: Run, key: string, m: Measure)
    requires run.Then?
    requires Faithful(l, run.earlier, key, m, run.call.now)
    ensures Faithful(l, run, key, m, run.call.now)
  {
    if run.call.key == key && !Capped(l, Kept(l, run), key) {
      OwnWindow(l, run, m);
    } else {
      OtherWindow(l, run, key, m);
    }
  }

  lemma OwnWindow(l: Limits, run: Run, m: Measure)
    requires run.Then?
    requires Faithful(l, run.earlier, run.call.key, m, run.call.now)
    requires !Capped(l, Kept(l, run), run.call.key)
    ensures var last := run.call;
            && last.key in After(l, run)
            && var w := After(l, run)[last.key];
            && Tallied(l, run, last.key, m, w, last.now)
            && Got(l, run, last.key, m, w.started + WINDOW_MILLIS, last.now) == 0
  {
    hide After, ClockForward;
    var head, last := run.earlier, run.call;
    BeforeCall(l, head, last.key, m, last.now, last.prune);
    WindowAfter(l, run, last.key);
    var w := Current(Kept(l, run), last.key, last.now);
    NothingInFuture(l, run, last.key, m, w.started + WINDOW_MILLIS, last.now);
  }

  lemma NothingInFuture(l: Limits, run: Run, key: string, m: Measure, from: int, to: int)
    requires to < from
    ensures Got(l, run, key, m, from, to) == 0
  {
    if run.Then? { NothingInFuture(l, run.earlier, key, m, from, to); }
  }

  lemma {:induction false} AlwaysFaithful(l: Limits, run: Run, key: string, m: Measure, now: nat)
    requires ClockForward(run, now)
    ensures Faithful(l, run, key, m, now)
  {
    if run.Then? {
      AlwaysFaithful(l, run.earlier, key, m, run.call.now);
      FaithfulCall(l, run, key, m);
      FaithfulLater(l, run, key, m, run.call.now, now);
    }
  }

  // Over any run and any 60 s, one key gets at most twice the limit.
  lemma {:induction false} SlidingWindowBound(l: Limits, run: Run, now: nat, key: string, m: Measure, from: int)
    requires ClockForward(run, now)
    ensures l.WithinTwice(Got(l, run, key, m, from, from + 60_000), m)
  {
    if run.Then? {
      var last := run.call;
      SlidingWindowBound(l, run.earlier, last.now, key, m, from);
      if LetThrough(l, run) && last.key == key && from <= last.now <= from + WINDOW_MILLIS {
        LastMinutes(l, run, m);
        var to := from + WINDOW_MILLIS;
        NothingLater(l, run, key, m, last.now, to);
        GotSplits(l, run, key, m, from, last.now, to);
        GotGrows(l, run, key, m, from, last.now, last.now - WINDOW_MILLIS, last.now);
      }
    }
  }

  // The minute up to a call that was let through.
  lemma LastMinutes(l: Limits, run: Run, m: Measure)
    requires run.Then? && ClockForward(run, run.call.now) && LetThrough(l, run)
    ensures var last := run.call;
            l.WithinTwice(Got(l, run, last.key, m, last.now - WINDOW_MILLIS, last.now), m)
  {
    hide After, Got, Tallied, Faithful, Kept;
    var last := run.call;
    AlwaysFaithful(l, run.earlier, last.key, m, last.now);
    NotCapped(l, run);
    OwnWindow(l, run, m);
    TwoMinutes(l, run, last.key, m, After(l, run)[last.key], last.now);
  }

  lemma NotCapped(l: Limits, run: Run)
    requires run.Then? && LetThrough(l, run)
    ensures !Capped(l, Kept(l, run), run.call.key)
  {
    hide After;
  }

  // What a window and the minute before it hold is all that counts up to now.
  lemma TwoMinutes(l: Limits, run: Run, key: string, m: Measure, w: Window, now: nat)
    requires Tallied(l, run, key, m, w, now)
    ensures l.WithinTwice(Got(l, run, key, m, now - WINDOW_MILLIS, now), m)
  {
    hide Got;
    GotGrows(l, run, key, m, now - WINDOW_MILLIS, now, w.started - WINDOW_MILLIS, now);
    GotSplits(l, run, key, m, w.started - WINDOW_MILLIS, w.started - 1, now);
  }
}
