// The jitter buffer of one caller: ordered playout with holes waited for, but
// never for long. Times are nanoseconds.
module Jitter {
  import opened Options
  import opened Numbers

  const MAX_BUFFERED_PACKETS := 8
  const SKIP_WAIT_BACKLOG := 3
  const FRAME_PERIOD := 20_000_000
  const MIN_JITTER_WAIT := 20_000_000
  const MAX_JITTER_WAIT := 100_000_000

  type Packet = seq<int>

  datatype Arrival = Arrival(sequence: nat, at: int)

  datatype Buf = Buf(expected: nat, pending: map<nat, Packet>, gapStarted: Option<int>, previous: Option<Arrival>,
                     jitter: nat, gapWait: nat, lost: nat)

  function Empty(first: nat): Buf { Buf(first, map[], None, None, 0, MIN_JITTER_WAIT, 0) }

  function Abs(x: int): nat { if x < 0 then -x else x }

  ghost predicate IsOldest(m: map<nat, Packet>, k: nat) { k in m && forall j :: j in m ==> k <= j }

  lemma OldestExists(s: set<nat>)
    requires s != {}
    ensures exists k :: k in s && forall j :: j in s ==> k <= j
  {
    var k :| k in s;
    var rest := s;
    while rest != {}
      invariant rest <= s && k in s && forall j :: j in s && j !in rest ==> k <= j
      decreases |rest|
    {
      var x :| x in rest;
      if x < k { k := x; }
      rest := rest - {x};
    }
  }

  function Oldest(m: map<nat, Packet>): (k: nat)
    requires m != map[]
    ensures IsOldest(m, k)
  {
    OldestExists(m.Keys);
    var k :| k in m && forall j :: j in m ==> k <= j;
    k
  }

  // ---- Arrival statistics -----------------------------------------------------------

  function Deviation(p: Arrival, a: Arrival): nat {
    Saturated(Abs((a.at - p.at) - (a.sequence - p.sequence) * FRAME_PERIOD), U64_MAX)
  }

  function Smoothed(jitter: nat, deviation: nat): (j: nat)
    ensures jitter <= deviation ==> jitter <= j <= deviation
    ensures deviation <= jitter ==> deviation <= j <= jitter
  {
    if deviation >= jitter then jitter + (deviation - jitter) / 16 else jitter - (jitter - deviation) / 16
  }

  function Wait(jitter: nat): nat {
    if MIN_JITTER_WAIT + jitter * 4 < MAX_JITTER_WAIT then MIN_JITTER_WAIT + jitter * 4 else MAX_JITTER_WAIT
  }

  function Observed(b: Buf, a: Arrival): Buf {
    var jitter := if b.previous.Some? then Smoothed(b.jitter, Deviation(b.previous.value, a)) else b.jitter;
    b.(previous := Some(a), jitter := jitter, gapWait := Wait(jitter))
  }

  // ---- The two operations -------------------------------------------------------------

  datatype Op =
    | Insert(sequence: nat, packet: Packet, at: int, kept: bool)
    | Poll(now: int, played: Option<nat>, packet: Packet)

  // At most one packet is ever over the bound: then the oldest goes, with
  // whatever was missing before it.
  function Trimmed(b: Buf): Buf
    requires b.pending != map[]
  {
    var oldest := Oldest(b.pending);
    b.(pending := b.pending - {oldest}, lost := Saturated(b.lost + SaturatingSub(oldest, b.expected) + 1, U64_MAX),
       expected := Saturated(oldest + 1, U64_MAX), gapStarted := None)
  }

  function GapSince(b: Buf, now: int): int { if b.gapStarted.Some? then b.gapStarted.value else now }

  function Played(b: Buf, k: nat): Buf
    requires k in b.pending
  {
    b.(pending := b.pending - {k}, expected := Saturated(k + 1, U64_MAX), gapStarted := None,
       lost := if k > b.expected then Saturated(b.lost + (k - b.expected), U64_MAX) else b.lost)
  }

  ghost predicate Step(b: Buf, op: Op, b': Buf) {
    match op
    case Insert(sequence, packet, at, kept) =>
      var seen := Observed(b, Arrival(sequence, at));
      var all := seen.(pending := b.pending[sequence := packet]);
      && sequence <= U64_MAX
      && kept == (sequence >= b.expected && sequence !in b.pending)
      && b' == if !kept then b else if |all.pending| <= MAX_BUFFERED_PACKETS then all else Trimmed(all)
    case Poll(now, played, packet) =>
      if b.pending == map[] then played.None? && b' == b
      else if b.expected in b.pending then
        played == Some(b.expected) && packet == b.pending[b.expected] && b' == Played(b, b.expected)
      else if |b.pending| < SKIP_WAIT_BACKLOG && now - GapSince(b, now) < b.gapWait then
        played.None? && b' == b.(gapStarted := Some(GapSince(b, now)))
      else
        var next := Oldest(b.pending);
        played == Some(next) && packet == b.pending[next] && b' == Played(b, next)
  }

  datatype Run = Start(first: nat) | Then(earlier: Run, op: Op, after: Buf)
  {
    function Now(): Buf { if Start? then Empty(first) else after }

    function First(): nat { if Start? then first else earlier.First() }
  }

  // Sequence numbers are 64 bits wide.
  ghost predicate Possible(run: Run) {
    if run.Start? then run.first <= U64_MAX else Possible(run.earlier) && Step(run.earlier.Now(), run.op, run.after)
  }

  // ---- What every buffer keeps -----------------------------------------------------

  ghost predicate Sound(b: Buf) {
    && (forall k :: k in b.pending ==> b.expected <= k <= U64_MAX)
    && |b.pending| <= MAX_BUFFERED_PACKETS && b.expected <= U64_MAX
    && MIN_JITTER_WAIT <= b.gapWait <= MAX_JITTER_WAIT
    && (b.gapStarted.Some? ==> b.pending != map[])
  }

  lemma RemoveSize(m: map<nat, Packet>, k: nat)
    requires k in m
    ensures |m - {k}| == |m| - 1
  {
    assert (m - {k}).Keys == m.Keys - {k};
    assert |m| == |m.Keys| && |m - {k}| == |(m - {k}).Keys|;
  }

  lemma AddSize(m: map<nat, Packet>, k: nat, p: Packet)
    requires k !in m
    ensures |m[k := p]| == |m| + 1
  {
    assert m[k := p].Keys == m.Keys + {k};
    assert |m| == |m.Keys| && |m[k := p]| == |m[k := p].Keys|;
  }

  lemma TrimmedSound(b: Buf)
    requires |b.pending| == MAX_BUFFERED_PACKETS + 1 && MIN_JITTER_WAIT <= b.gapWait <= MAX_JITTER_WAIT
    requires forall k :: k in b.pending ==> b.expected <= k <= U64_MAX
    ensures forall k :: k in Trimmed(b).pending ==> k >= Trimmed(b).expected
    ensures |Trimmed(b).pending| == MAX_BUFFERED_PACKETS && Sound(Trimmed(b))
  {
    RemoveSize(b.pending, Oldest(b.pending));
  }

  lemma InsertKeepsSound(b: Buf, op: Op, b': Buf)
    requires op.Insert? && Sound(b) && Step(b, op, b')
    ensures Sound(b')
  {
    hide Observed, Trimmed;
    var a := Arrival(op.sequence, op.at);
    ObservedKeeps(b, a);
    if op.kept {
      AddSize(b.pending, op.sequence, op.packet);
      var all := Observed(b, a).(pending := b.pending[op.sequence := op.packet]);
      if |all.pending| > MAX_BUFFERED_PACKETS { TrimmedSound(all); }
    }
  }

  lemma PollKeepsSound(b: Buf, op: Op, b': Buf)
    requires op.Poll? && Sound(b) && Step(b, op, b')
    ensures Sound(b')
  {
    if op.played.Some? { RemoveSize(b.pending, op.played.value); }
  }

  lemma {:induction false} AlwaysSound(run: Run)
    requires Possible(run)
    ensures Sound(run.Now())
  {
    match run
    case Start(_) =>
    case Then(earlier, op, after) =>
      AlwaysSound(earlier);
      if op.Insert? { InsertKeepsSound(earlier.Now(), op, after); } else { PollKeepsSound(earlier.Now(), op, after); }
  }

  // ---- Every sequence number is accounted for ------------------------------------------

  function PlayedBy(run: Run): seq<nat> {
    if run.Start? then [] else PlayedBy(run.earlier) + if run.op.Poll? && run.op.played.Some? then [run.op.played.value] else []
  }

  function Accepted(run: Run): nat {
    if run.Start? then 0 else Accepted(run.earlier) + if run.op.Insert? && run.op.kept then 1 else 0
  }

  // Packets let go because the buffer was full.
  function Overflowed(run: Run): nat {
    if run.Start? then 0
    else Overflowed(run.earlier)
         + if run.op.Insert? && run.op.kept && |run.earlier.Now().pending| == MAX_BUFFERED_PACKETS then 1 else 0
  }

  // How often the largest sequence number was played: it is not passed then,
  // because the next expected number saturates there.
  function TopPlays(run: Run): nat {
    if run.Start? then 0
    else TopPlays(run.earlier) + if run.op.Poll? && run.op.played == Some(U64_MAX) then 1 else 0
  }

  ghost predicate Accounts(run: Run) {
    var b := run.Now();
    && b.expected + TopPlays(run) == run.First() + |PlayedBy(run)| + b.lost
    && TopPlays(run) <= |PlayedBy(run)|
    && Accepted(run) == |PlayedBy(run)| + |b.pending| + Overflowed(run)
    && Overflowed(run) <= b.lost
  }

  lemma InsertAccounts(b: Buf, op: Op, b': Buf)
    requires op.Insert? && Sound(b) && Step(b, op, b') && b.lost <= b.expected
    ensures b'.expected - b.expected == b'.lost - b.lost
    ensures var over := op.kept && |b.pending| == MAX_BUFFERED_PACKETS;
            && |b'.pending| == |b.pending| + (if op.kept && !over then 1 else 0)
            && b'.lost >= b.lost + if over then 1 else 0
  {
    hide Smoothed, Deviation;
    if op.kept {
      AddSize(b.pending, op.sequence, op.packet);
      var all := b.pending[op.sequence := op.packet];
      if |all| > MAX_BUFFERED_PACKETS {
        RemoveSize(all, Oldest(all));
        OldestBelowTop(all);
      }
    }
  }

  // Of two packets or more the oldest is not the one with the largest number.
  lemma OldestBelowTop(m: map<nat, Packet>)
    requires |m| >= 2 && forall k :: k in m ==> k <= U64_MAX
    ensures Oldest(m) < U64_MAX
  {
    assert |m| == |m.Keys|;
    if Oldest(m) == U64_MAX { SubsetSize(m.Keys, {U64_MAX}); }
  }

  lemma PollAccounts(b: Buf, op: Op, b': Buf)
    requires op.Poll? && Sound(b) && Step(b, op, b') && b.lost <= b.expected
    ensures b'.lost >= b.lost
    ensures var played := if op.played.Some? then 1 else 0;
            && b'.expected - b.expected == b'.lost - b.lost + played - (if op.played == Some(U64_MAX) then 1 else 0)
            && |b'.pending| == |b.pending| - played
    ensures op.played.Some? ==> b.expected <= op.played.value <= U64_MAX
    ensures op.played.Some? ==> b'.expected == if op.played.value < U64_MAX then op.played.value + 1 else U64_MAX
  {
    if op.played.Some? { RemoveSize(b.pending, op.played.value); }
  }

  lemma InsertKeepsAccounts(run: Run)
    requires run.Then? && run.op.Insert? && Step(run.earlier.Now(), run.op, run.after)
    requires Sound(run.earlier.Now()) && Accounts(run.earlier)
    ensures Accounts(run)
  {
    hide Step, Sound;
    InsertAccounts(run.earlier.Now(), run.op, run.after);
  }

  lemma PollKeepsAccounts(run: Run)
    requires run.Then? && run.op.Poll? && Step(run.earlier.Now(), run.op, run.after)
    requires Sound(run.earlier.Now()) && Accounts(run.earlier)
    ensures Accounts(run)
  {
    hide Step, Sound;
    PollAccounts(run.earlier.Now(), run.op, run.after);
  }

  // Every number passed was played or counted as lost, the largest being
  // played without being passed; every packet accepted was played, is still
  // here, or was let go for a newer one.
  lemma {:induction false} AlwaysAccounts(run: Run)
    requires Possible(run)
    ensures Accounts(run)
  {
    match run
    case Start(_) =>
    case Then(earlier, op, after) =>
      hide Step, Sound, Accounts;
      AlwaysAccounts(earlier);
      AlwaysSound(earlier);
      if op.Insert? { InsertKeepsAccounts(run); } else { PollKeepsAccounts(run); }
  }

  lemma AccountsGives(run: Run)
    requires Accounts(run)
    ensures run.First() <= run.Now().expected && run.Now().lost <= run.Now().expected
  {
  }

  // ---- The order of playing ------------------------------------------------------------

  predicate Before(x: nat, y: nat) { x < y || x == U64_MAX == y }

  ghost predicate InOrder(played: seq<nat>, expected: nat) {
    && (forall i, j :: 0 <= i < j < |played| ==> Before(played[i], played[j]))
    && forall i :: 0 <= i < |played| ==> Before(played[i], expected)
  }

  lemma OneMorePlayed(played: seq<nat>, expected: nat, x: nat, expected': nat)
    requires InOrder(played, expected) && expected <= x <= U64_MAX
    requires expected' == if x < U64_MAX then x + 1 else U64_MAX
    ensures InOrder(played + [x], expected')
  {
  }

  // Packets play in strictly increasing order, all of them before expected;
  // only the largest sequence number can play again, and then nothing else.
  lemma {:induction false} PlayedInOrder(run: Run)
    requires Possible(run)
    ensures InOrder(PlayedBy(run), run.Now().expected)
    ensures forall i :: 0 <= i < |PlayedBy(run)| ==> run.First() <= PlayedBy(run)[i]
  {
    match run
    case Start(_) =>
    case Then(earlier, op, after) =>
      hide Step, Sound, Accounts, InOrder;
      PlayedInOrder(earlier);
      AlwaysSound(earlier);
      AlwaysAccounts(earlier);
      AccountsGives(earlier);
      OneStepInOrder(earlier.Now(), op, after, PlayedBy(earlier));
  }

  lemma OneStepInOrder(b: Buf, op: Op, b': Buf, played: seq<nat>)
    requires Sound(b) && Step(b, op, b') && b.lost <= b.expected && InOrder(played, b.expected)
    ensures InOrder(played + if op.Poll? && op.played.Some? then [op.played.value] else [], b'.expected)
    ensures op.Poll? && op.played.Some? ==> b.expected <= op.played.value
  {
    hide Step, InOrder;
    if op.Poll? && op.played.Some? {
      PollAccounts(b, op, b');
      OneMorePlayed(played, b.expected, op.played.value, b'.expected);
    } else {
      NothingPlayed(b, op, b');
      LaterExpected(played, b.expected, b'.expected);
      assert played + [] == played;
    }
  }

  lemma NothingPlayed(b: Buf, op: Op, b': Buf)
    requires Sound(b) && Step(b, op, b') && b.lost <= b.expected && !(op.Poll? && op.played.Some?)
    ensures b.expected <= b'.expected <= U64_MAX
  {
    hide Smoothed, Deviation;
    if op.Insert? { InsertAccounts(b, op, b'); }
  }

  lemma LaterExpected(played: seq<nat>, expected: nat, expected': nat)
    requires InOrder(played, expected) && expected <= expected'
    requires expected' <= U64_MAX
    ensures InOrder(played, expected')
  {
  }

  // A poll that plays, plays a number again exactly when the largest one was
  // played before.
  lemma RepeatsExactly(run: Run)
    requires Possible(run) && run.Then? && run.op.Poll? && run.op.played.Some?
    ensures run.op.played.value in PlayedBy(run.earlier) <==> U64_MAX in PlayedBy(run.earlier)
  {
    hide Step, Accounts;
    AlwaysSound(run);
    PlayedInOrder(run);
    var before, x := PlayedBy(run.earlier), run.op.played.value;
    assert PlayedBy(run) == before + [x];
    assert Before(PlayedBy(run)[|before|], run.Now().expected);
    if x in before {
      var i :| 0 <= i < |before| && before[i] == x;
      assert Before(PlayedBy(run)[i], PlayedBy(run)[|before|]);
    }
    if U64_MAX in before {
      var i :| 0 <= i < |before| && before[i] == U64_MAX;
      assert Before(PlayedBy(run)[i], PlayedBy(run)[|before|]);
    }
  }

  // Once it has been played, that number is all a buffer still accepts, and
  // accepting and polling it plays it again.
  lemma TopRepeats(run: Run, packet: Packet, at: int, now: int, b1: Buf, b2: Buf, kept: bool, played: Option<nat>)
    requires Possible(run) && U64_MAX in PlayedBy(run)
    requires Step(run.Now(), Insert(U64_MAX, packet, at, kept), b1)
    requires exists p :: Step(b1, Poll(now, played, p), b2)
    ensures run.Now().expected == U64_MAX && played == Some(U64_MAX)
    ensures forall k :: k in run.Now().pending ==> k == U64_MAX
  {
    hide Observed, Trimmed, InOrder;
    PlayedInOrder(run);
    AlwaysSound(run);
    TopIsExpected(PlayedBy(run), run.Now().expected);
    ObservedKeeps(run.Now(), Arrival(U64_MAX, at));
    if kept {
      assert forall k :: k in run.Now().pending.Keys ==> k == U64_MAX;
      assert run.Now().pending.Keys == {};
      AddSize(run.Now().pending, U64_MAX, packet);
      assert |run.Now().pending| == |run.Now().pending.Keys|;
    }
  }

  lemma TopIsExpected(played: seq<nat>, expected: nat)
    requires InOrder(played, expected) && U64_MAX in played && expected <= U64_MAX
    ensures expected == U64_MAX
  {
    var i :| 0 <= i < |played| && played[i] == U64_MAX;
    assert Before(played[i], expected);
  }

  lemma ObservedKeeps(b: Buf, a: Arrival)
    ensures var o := Observed(b, a); o.expected == b.expected && o.pending == b.pending && o.lost == b.lost && o.gapStarted == b.gapStarted
    ensures MIN_JITTER_WAIT <= Observed(b, a).gapWait <= MAX_JITTER_WAIT
  {
  }

  // A run in which it plays twice.
  lemma TopPlaysTwice()
    ensures exists run :: Possible(run) && PlayedBy(run) == [U64_MAX, U64_MAX]
  {
    var once := PlayTop(Start(U64_MAX));
    var twice := PlayTop(once);
    assert PlayedBy(twice) == [] + [U64_MAX] + [U64_MAX];
  }

  lemma PlayTop(run: Run) returns (more: Run)
    requires Possible(run) && run.Now().expected == U64_MAX && |run.Now().pending| == 0
    ensures Possible(more) && PlayedBy(more) == PlayedBy(run) + [U64_MAX]
    ensures more.Now().expected == U64_MAX && |more.Now().pending| == 0
  {
    hide Observed;
    var b := run.Now();
    AddSize(b.pending, U64_MAX, []);
    var b1 := Observed(b, Arrival(U64_MAX, 0)).(pending := b.pending[U64_MAX := []]);
    ObservedKeeps(b, Arrival(U64_MAX, 0));
    var r1 := Then(run, Insert(U64_MAX, [], 0, true), b1);
    assert Step(b, r1.op, b1);
    assert PlayedBy(r1) == PlayedBy(run);
    RemoveSize(b1.pending, U64_MAX);
    more := Then(r1, Poll(0, Some(U64_MAX), []), Played(b1, U64_MAX));
    assert Step(b1, more.op, Played(b1, U64_MAX));
  }

  // ---- No stall ---------------------------------------------------------------------------

  // Polls read a clock that never goes back.
  function LastPoll(run: Run): Option<int> {
    if run.Start? then None else if run.op.Poll? then Some(run.op.now) else LastPoll(run.earlier)
  }

  ghost predicate Timely(run: Run) {
    run.Then? ==>
      && Timely(run.earlier)
      && (run.op.Poll? && LastPoll(run.earlier).Some? ==> LastPoll(run.earlier).value <= run.op.now)
  }

  ghost predicate GapInPast(run: Run) {
    run.Now().gapStarted.Some? ==> LastPoll(run).Some? && run.Now().gapStarted.value <= LastPoll(run).value
  }

  lemma {:induction false} GapAlwaysInPast(run: Run)
    requires Possible(run) && Timely(run)
    ensures GapInPast(run)
  {
    if run.Then? { GapAlwaysInPast(run.earlier); }
  }

  // From p on, every poll answered nothing.
  ghost predicate SilentSince(p: Run, run: Run) {
    p == run || (run.Then? && SilentSince(p, run.earlier) && (run.op.Poll? ==> run.op.played.None?))
  }

  // A gap first noticed at t0 is still timed from then, unless enough packets
  // wait behind it that the next poll will not wait at all.
  ghost predicate Waiting(b: Buf, t0: int) {
    b.pending != map[] && (|b.pending| >= SKIP_WAIT_BACKLOG || (b.gapStarted.Some? && b.gapStarted.value <= t0))
  }

  lemma StepKeepsWaiting(b: Buf, op: Op, b': Buf, t0: int)
    requires Sound(b) && Step(b, op, b') && Waiting(b, t0) && (op.Poll? ==> op.played.None?)
    ensures Waiting(b', t0)
    ensures op.Poll? ==> |b.pending| < SKIP_WAIT_BACKLOG && op.now < t0 + MAX_JITTER_WAIT
  {
    hide Smoothed, Deviation;
    if op.Insert? && op.kept {
      AddSize(b.pending, op.sequence, op.packet);
      var all := b.pending[op.sequence := op.packet];
      if |all| > MAX_BUFFERED_PACKETS { RemoveSize(all, Oldest(all)); }
    }
  }

  // Whatever arrives meanwhile, polls that keep finding nothing to play all
  // come within 100 ms of the first, and none of them with three packets here.
  lemma {:induction false} NoStall(p: Run, run: Run)
    requires Possible(run) && Timely(run) && SilentSince(p, run)
    requires p.Then? && p.op.Poll? && p.op.played.None? && p.Now().pending != map[]
    ensures Waiting(run.Now(), p.op.now)
    ensures run != p && run.op.Poll? ==> |run.earlier.Now().pending| < 3 && run.op.now < p.op.now + 100_000_000
  {
    if p == run {
      GapAlwaysInPast(run);
    } else {
      hide Step;
      NoStall(p, run.earlier);
      AlwaysSound(run.earlier);
      StepKeepsWaiting(run.earlier.Now(), run.op, run.after, p.op.now);
    }
  }

  // So a poll 100 ms after the first unanswered one plays a packet, unless one
  // between them already did; and with three packets here any poll does.
  lemma LatePollPlays(p: Run, run: Run)
    requires Possible(run) && Timely(run) && run.Then? && SilentSince(p, run.earlier)
    requires p.Then? && p.op.Poll? && p.op.played.None? && p.Now().pending != map[]
    requires run.op.Poll? && (run.op.now >= p.op.now + 100_000_000 || |run.earlier.Now().pending| >= 3)
    ensures run.op.played.Some?
  {
    if run.op.played.None? { NoStall(p, run); }
  }

  // ---- The buffer --------------------------------------------------------------------------

  class PacketJitterBuffer {
    var expected: nat
    var pending: map<nat, Packet>
    var gapStarted: Option<int>
    var previous: Option<Arrival>
    var jitter: nat
    var gapWait: nat
    var lost: nat
    ghost var run: Run

    function State(): Buf
      reads this
    {
      Buf(expected, pending, gapStarted, previous, jitter, gapWait, lost)
    }

    ghost predicate Valid()
      reads this
    {
      Possible(run) && run.Now() == State()
    }

    constructor (first: nat)
      requires first <= U64_MAX
      ensures Valid() && run == Start(first)
    {
      expected, pending, gapStarted, previous, jitter, gapWait, lost := first, map[], None, None, 0, MIN_JITTER_WAIT, 0;
      run := Start(first);
    }

    // False: too late, or a copy.
    method Insert(sequence: nat, packet: Packet, at: int) returns (kept: bool)
      requires Valid() && sequence <= U64_MAX
      modifies this
      ensures Valid() && run == Then(old(run), Op.Insert(sequence, packet, at, kept), State())
      ensures Step(old(State()), Op.Insert(sequence, packet, at, kept), State())
    {
      hide Observed, Possible;
      AlwaysSound(run);
      kept := sequence >= expected && sequence !in pending;
      if kept {
        Observe(sequence, at);
        AddSize(pending, sequence, packet);
        pending := pending[sequence := packet];
        Trim();
      }
      run := Then(run, Op.Insert(sequence, packet, at, kept), State());
      assert Possible(run) by { Recorded(run); }
    }

    static lemma Recorded(run: Run)
      requires run.Then? && Possible(run.earlier) && Step(run.earlier.Now(), run.op, run.after)
      ensures Possible(run)
    {
    }

    // Over the bound, the oldest go.
    method Trim()
      requires |pending| <= MAX_BUFFERED_PACKETS + 1
      modifies this`expected, this`pending, this`gapStarted, this`lost
      ensures State() == if |old(pending)| <= MAX_BUFFERED_PACKETS then old(State()) else Trimmed(old(State()))
    {
      while |pending| > MAX_BUFFERED_PACKETS
        invariant State() == if |pending| == |old(pending)| then old(State()) else Trimmed(old(State()))
        invariant |pending| == |old(pending)| || |pending| == |old(pending)| - 1 == MAX_BUFFERED_PACKETS
        decreases |pending|
      {
        var oldest := Oldest(pending);
        RemoveSize(pending, oldest);
        lost := Saturated(lost + SaturatingSub(oldest, expected) + 1, U64_MAX);
        pending := pending - {oldest};
        expected := Saturated(oldest + 1, U64_MAX);
        gapStarted := None;
      }
    }

    method Observe(sequence: nat, at: int)
      modifies this`previous, this`jitter, this`gapWait
      ensures State() == Observed(old(State()), Arrival(sequence, at))
    {
      if previous.Some? {
        var deviation := Deviation(previous.value, Arrival(sequence, at));
        jitter := if deviation >= jitter then jitter + (deviation - jitter) / 16 else jitter - (jitter - deviation) / 16;
      }
      previous := Some(Arrival(sequence, at));
      gapWait := if MIN_JITTER_WAIT + jitter * 4 < MAX_JITTER_WAIT then MIN_JITTER_WAIT + jitter * 4 else MAX_JITTER_WAIT;
    }

    // What plays in this slot, and its sequence number.
    method PopReady(now: int) returns (packet: Option<Packet>, ghost k: Option<nat>)
      requires Valid()
      modifies this`expected, this`pending, this`gapStarted, this`lost, this`run
      ensures Valid() && (k.Some? <==> packet.Some?)
      ensures run == Then(old(run), Poll(now, k, if packet.Some? then packet.value else []), State())
    {
      AlwaysSound(run);
      packet, k := Pop(now);
      run := Then(run, Poll(now, k, if packet.Some? then packet.value else []), State());
    }

    // Once the hole is given up the packet behind it is next, so the second
    // call is the last.
    method Pop(now: int) returns (packet: Option<Packet>, ghost k: Option<nat>)
      requires Sound(State())
      modifies this`expected, this`pending, this`gapStarted, this`lost
      ensures k.Some? <==> packet.Some?
      ensures Step(old(State()), Poll(now, k, if packet.Some? then packet.value else []), State())
      decreases if expected in pending then 0 else 1
    {
      if expected in pending {
        packet, k := Some(pending[expected]), Some(expected);
        pending := pending - {expected};
        expected := Saturated(expected + 1, U64_MAX);
        gapStarted := None;
        return;
      }
      if |pending| == 0 { return None, None; }
      var next := Oldest(pending);
      if gapStarted.None? { gapStarted := Some(now); }
      if |pending| < SKIP_WAIT_BACKLOG && now - gapStarted.value < gapWait { return None, None; }
      lost := Saturated(lost + (next - expected), U64_MAX);
      expected := next;
      gapStarted := None;
      packet, k := Pop(now);
    }
  }
}
