// What the jitter buffer does with each packet and each poll, in sequence
// numbers and times alone.
module JitterAnswers {
  import opened Options
  import opened Numbers
  import opened Jitter

  // ---- Arrivals -----------------------------------------------------------------------

  // When a packet is due after another: 20 ms for each number between them.
  function DueAfter(p: Arrival, sequence: nat): int { p.at + 20_000_000 * (sequence - p.sequence) }

  // How far from then it came, either way.
  lemma DeviationExactly(p: Arrival, a: Arrival, d: nat)
    requires d < U64_MAX
    ensures Deviation(p, a) == d <==> a.at == DueAfter(p, a.sequence) + d || a.at == DueAfter(p, a.sequence) - d
    ensures Deviation(p, a) <= U64_MAX
  {
  }

  // The smoothed jitter moves a sixteenth of the way to the last deviation; the
  // wait is 20 ms and four times the jitter, at most 100 ms.
  lemma ObservedExactly(b: Buf, a: Arrival)
    ensures var o := Observed(b, a);
            && o.previous == Some(a)
            && (b.previous.None? ==> o.jitter == b.jitter)
            && (b.previous.Some? ==>
                  var d := Deviation(b.previous.value, a);
                  && (d >= b.jitter ==> 16 * (o.jitter - b.jitter) <= d - b.jitter < 16 * (o.jitter - b.jitter) + 16)
                  && (d <= b.jitter ==> 16 * (b.jitter - o.jitter) <= b.jitter - d < 16 * (b.jitter - o.jitter) + 16))
            && (20_000_000 + 4 * o.jitter <= 100_000_000 ==> o.gapWait == 20_000_000 + 4 * o.jitter)
            && (20_000_000 + 4 * o.jitter >= 100_000_000 ==> o.gapWait == 100_000_000)
  {
  }

  // Every kept packet came when it was due after the one before.
  ghost predicate OnSchedule(run: Run) {
    run.Then? ==>
      && OnSchedule(run.earlier)
      && (run.op.Insert? && run.op.kept && run.earlier.Now().previous.Some? ==>
            run.op.at == DueAfter(run.earlier.Now().previous.value, run.op.sequence))
  }

  // Then nothing is waited for longer than 20 ms.
  lemma {:induction false} SteadyArrivals(run: Run)
    requires Possible(run) && OnSchedule(run)
    ensures run.Now().jitter == 0 && run.Now().gapWait == 20_000_000
  {
    if run.Then? {
      hide Observed, Deviation, Step;
      SteadyArrivals(run.earlier);
      var b, op := run.earlier.Now(), run.op;
      StepTimes(b, op, run.after);
      if op.Insert? && op.kept {
        var a := Arrival(op.sequence, op.at);
        ObservedExactly(b, a);
        if b.previous.Some? { DeviationExactly(b.previous.value, a, 0); }
      }
    }
  }

  lemma StepTimes(b: Buf, op: Op, b': Buf)
    requires Step(b, op, b')
    ensures if op.Insert? && op.kept then
              var o := Observed(b, Arrival(op.sequence, op.at));
              b'.jitter == o.jitter && b'.gapWait == o.gapWait && b'.previous == o.previous
            else b'.jitter == b.jitter && b'.gapWait == b.gapWait && b'.previous == b.previous
  {
  }

  // ---- Inserting ----------------------------------------------------------------------

  // A packet is kept exactly when it is not yet passed and not here. Over eight
  // the oldest goes, and with it all that was missing before it.
  lemma InsertExactly(b: Buf, op: Op, b': Buf)
    requires op.Insert? && Sound(b) && Step(b, op, b')
    ensures op.kept <==> op.sequence >= b.expected && op.sequence !in b.pending
    ensures !op.kept ==> b' == b
    ensures op.kept && |b.pending| < 8 ==>
              b'.pending == b.pending[op.sequence := op.packet] && b'.expected == b.expected && b'.lost == b.lost && b'.gapStarted == b.gapStarted
    ensures op.kept && |b.pending| == 8 ==>
              exists k: nat :: IsOldest(b.pending[op.sequence := op.packet], k) && k >= b.expected
                && b'.pending == b.pending[op.sequence := op.packet] - {k}
                && b'.expected == Saturated(k + 1, U64_MAX) && b'.lost == Saturated(b.lost + (k - b.expected) + 1, U64_MAX)
                && b'.gapStarted.None?
  {
    hide Smoothed, Deviation;
    if op.kept {
      AddSize(b.pending, op.sequence, op.packet);
      assert IsOldest(b.pending[op.sequence := op.packet], Oldest(b.pending[op.sequence := op.packet]));
    }
  }

  // ---- Polling -----------------------------------------------------------------------

  // The first poll that found nothing to play since one played, or the buffer
  // overflowed; none if there was none.
  function FirstUnanswered(run: Run): Option<int> {
    if run.Start? then None
    else
      match run.op
      case Insert(_, _, _, kept) => if kept && |run.earlier.Now().pending| == 8 then None else FirstUnanswered(run.earlier)
      case Poll(now, played, _) =>
        if played.Some? then None
        else if run.earlier.Now().pending == map[] || FirstUnanswered(run.earlier).Some? then FirstUnanswered(run.earlier)
        else Some(now)
  }

  lemma PollLeaves(b: Buf, op: Op, b': Buf)
    requires op.Poll? && Step(b, op, b')
    ensures forall k :: k in b'.pending ==> k in b.pending && b'.pending[k] == b.pending[k]
    ensures b'.gapStarted == if op.played.Some? then None else if b.pending == map[] || b.gapStarted.Some? then b.gapStarted else Some(op.now)
  {
  }

  lemma InsertLeavesGap(b: Buf, op: Op, b': Buf)
    requires op.Insert? && Sound(b) && Step(b, op, b')
    ensures b'.gapStarted == if op.kept && |b.pending| == 8 then None else b.gapStarted
    ensures forall k :: k in b'.pending ==> if op.kept && k == op.sequence then b'.pending[k] == op.packet
                                            else k in b.pending && b'.pending[k] == b.pending[k]
  {
    hide Step;
    InsertExactly(b, op, b');
  }

  lemma {:induction false} GapIsFirstUnanswered(run: Run)
    requires Possible(run)
    ensures run.Now().gapStarted == FirstUnanswered(run)
  {
    if run.Then? {
      hide Step, Sound;
      GapIsFirstUnanswered(run.earlier);
      AlwaysSound(run.earlier);
      if run.op.Insert? { InsertLeavesGap(run.earlier.Now(), run.op, run.after); }
      else { PollLeaves(run.earlier.Now(), run.op, run.after); }
    }
  }

  // A poll plays the next number if it is here. If it is missing, the poll
  // passes it over, to the oldest packet here, exactly when three packets are
  // here or the first unanswered poll is as long ago as the wait, 20 to 100 ms;
  // otherwise, and with nothing here, it plays nothing.
  lemma PollExactly(run: Run)
    requires Possible(run) && run.Then? && run.op.Poll?
    ensures var b, b', op := run.earlier.Now(), run.after, run.op;
            var waited := if FirstUnanswered(run.earlier).Some? then op.now - FirstUnanswered(run.earlier).value else 0;
            && 20_000_000 <= b.gapWait <= 100_000_000
            && (op.played.Some? <==> b.pending != map[] && (b.expected in b.pending || |b.pending| >= 3 || waited >= b.gapWait))
            && (op.played.Some? ==>
                  var k := op.played.value;
                  && IsOldest(b.pending, k) && k >= b.expected && op.packet == b.pending[k] && b'.pending == b.pending - {k}
                  && b'.expected == Saturated(k + 1, U64_MAX) && b'.lost == Saturated(b.lost + (k - b.expected), U64_MAX))
            && (op.played.None? ==> b'.pending == b.pending && b'.expected == b.expected && b'.lost == b.lost)
  {
    hide Observed, Trimmed, Accounts;
    GapIsFirstUnanswered(run.earlier);
    AlwaysSound(run.earlier);
    AlwaysAccounts(run.earlier);
    AccountsGives(run.earlier);
  }

  // ---- What plays ---------------------------------------------------------------------

  // The packet last kept under a number.
  function KeptAs(run: Run, k: nat): Option<Packet> {
    if run.Start? then None
    else if run.op.Insert? && run.op.kept && run.op.sequence == k then Some(run.op.packet)
    else KeptAs(run.earlier, k)
  }

  lemma {:induction false} PendingCame(run: Run)
    requires Possible(run)
    ensures forall k :: k in run.Now().pending ==> KeptAs(run, k) == Some(run.Now().pending[k])
  {
    if run.Then? {
      hide Step, Sound;
      PendingCame(run.earlier);
      AlwaysSound(run.earlier);
      if run.op.Insert? { InsertLeavesGap(run.earlier.Now(), run.op, run.after); }
      else { PollLeaves(run.earlier.Now(), run.op, run.after); }
    }
  }

  // What plays under a number is the packet that came under it.
  lemma PlaysWhatCame(run: Run)
    requires Possible(run) && run.Then? && run.op.Poll? && run.op.played.Some?
    ensures KeptAs(run.earlier, run.op.played.value) == Some(run.op.packet)
  {
    PendingCame(run.earlier);
    PollExactly(run);
  }
}
