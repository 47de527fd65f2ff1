// When a long-polling fetch sleeps and when it wakes, in stores alone; and when
// a notifier is pruned.
module LongPollAnswers {
  import opened Options
  import opened LongPoll

  // How often stores have bumped a notifier.
  ghost function Bumps(run: Run, n: nat): nat
    requires Possible(run)
  {
    if run.Begin? then 0
    else Bumps(run.earlier, n) + if run.a.Bump? && After(run.earlier).threads[run.t].n == n then 1 else 0
  }

  lemma GenerationStep(s: State, t: nat, a: Act, n: nat)
    requires NotesKnown(s) && Enabled(s, t, a) && n in Do(s, t, a).notes
    ensures a.Bump? ==> s.threads[t].Found? && s.threads[t].n in s.notes
    ensures Do(s, t, a).notes[n].generation ==
            (if n in s.notes then s.notes[n].generation else 0) + if a.Bump? && s.threads[t].n == n then 1 else 0
  {
    hide Holders, StrongCount;
  }

  lemma NoteStays(s: State, t: nat, a: Act, n: nat)
    requires NotesKnown(s) && Enabled(s, t, a)
    ensures n in s.notes ==> n in Do(s, t, a).notes
    ensures s.nextNote <= Do(s, t, a).nextNote && (n in Do(s, t, a).notes && n !in s.notes ==> n == s.nextNote)
  {
    hide Holders, StrongCount;
  }

  // A notifier's generation is how often it was bumped.
  lemma {:induction false} GenerationIs(run: Run, n: nat)
    requires Possible(run)
    ensures n in After(run).notes ==> After(run).notes[n].generation == Bumps(run, n)
    ensures n >= After(run).nextNote ==> Bumps(run, n) == 0
  {
    if run.Then? {
      hide Enabled, Do, NotesKnown, NotifierStays, LockKept, WaitersExact, GenerationsSeen, LateStoresSeen;
      AlwaysInv(run.earlier);
      GenerationIs(run.earlier, n);
      NoteStays(After(run.earlier), run.t, run.a, n);
      NotesBelow(After(run.earlier));
      if n in After(run).notes { GenerationStep(After(run.earlier), run.t, run.a, n); }
      else if run.a.Bump? { BumpsKnown(After(run.earlier), run.t, run.a); }
    }
  }

  lemma NotesBelow(s: State)
    requires Inv(s)
    ensures forall n :: n in s.notes ==> n < s.nextNote
  {
  }

  lemma BumpsKnown(s: State, t: nat, a: Act)
    requires Enabled(s, t, a) && a.Bump?
    ensures s.threads[t].n in s.notes
  {
  }

  // A fetch reads how often its notifier was bumped.
  lemma ReadsBumps(run: Run)
    requires Possible(run) && run.Then? && run.a.ReadGeneration?
    ensures var th, th' := After(run.earlier).threads[run.t], After(run).threads[run.t];
            th'.Observed? && th'.m == th.m && th'.n == th.n && th'.g == Bumps(run.earlier, th.n)
  {
    GenerationIs(run.earlier, After(run.earlier).threads[run.t].n);
  }

  // It goes on to sleep only if its first look found nothing; its second look
  // ends it, asleep or not.
  lemma LooksExactly(run: Run)
    requires Possible(run) && run.Then? && (run.a.FirstDrain? || run.a.SecondDrain?)
    ensures var th, th' := After(run.earlier).threads[run.t], After(run).threads[run.t];
            && (run.a.FirstDrain? ==>
                  th' == match run.a.found case Nothing => FirstEmpty(th.m, th.n, th.g, {}) case Something => Pruning(th.m, th.n) case Failed => FetchDone)
            && (run.a.SecondDrain? ==> th' == if run.a.failed then FetchDone else Pruning(th.m, th.n))
  {
  }

  // Finding nothing, it sleeps exactly if no store has bumped the notifier
  // since; otherwise it looks again.
  lemma SleepsExactly(run: Run)
    requires Possible(run) && run.Then? && run.a.CheckGeneration?
    ensures var th, th' := After(run.earlier).threads[run.t], After(run).threads[run.t];
            && (th'.Asleep? <==> Bumps(run.earlier, th.n) == th.g) && (!th'.Asleep? ==> th' == Second(th.m, th.n))
            && (th'.Asleep? ==> th' == Asleep(th.m, th.n, th.g, th.late, false))
  {
    GenerationIs(run.earlier, After(run.earlier).threads[run.t].n);
  }

  // Woken, or its time over, it looks again exactly if its time is over or a
  // store has bumped the notifier since; otherwise it sleeps on.
  lemma WakesExactly(run: Run)
    requires Possible(run) && run.Then? && run.a.Resume?
    ensures var th, th' := After(run.earlier).threads[run.t], After(run).threads[run.t];
            th' == if run.a.timedOut || Bumps(run.earlier, th.n) != th.g then Second(th.m, th.n) else Asleep(th.m, th.n, th.g, th.late, false)
  {
    GenerationIs(run.earlier, After(run.earlier).threads[run.t].n);
  }

  // A bump wakes every fetch asleep on that notifier, and no other.
  lemma BumpWakes(run: Run)
    requires Possible(run) && run.Then? && run.a.Bump?
    ensures var s, s', n := After(run.earlier), After(run), After(run.earlier).threads[run.t].n;
            forall k :: k in s.threads && s.threads[k].Asleep? ==>
              k in s'.threads && s'.threads[k] == s.threads[k].(woken := s.threads[k].woken || s.threads[k].n == n)
  {
  }

  // A store that has committed finds its mailbox's notifier, exactly if there is one.
  lemma FindsExactly(run: Run)
    requires Possible(run) && run.Then? && run.a.Lookup?
    ensures var s, m := After(run.earlier), After(run.earlier).threads[run.t].m;
            After(run).threads[run.t] == if m in s.notifiers then Found(m, s.notifiers[m]) else StoreDone
  {
  }

  // A thread at work with a notifier.
  predicate Uses(th: Thread, n: nat) {
    !th.FetchStart? && !th.FetchDone? && !th.StoreStart? && !th.Committed? && !th.StoreDone? && th.n == n
  }

  // A fetch done with its notifier takes it out of the map exactly if no other
  // thread is at work with it.
  lemma PrunesExactly(run: Run)
    requires Possible(run) && run.Then? && run.a.PruneCount?
    ensures var s, s', th := After(run.earlier), After(run), After(run.earlier).threads[run.t];
            && th.m in s.notifiers && s.notifiers[th.m] == th.n
            && (th.m in s'.notifiers <==> exists k :: k != run.t && k in s.threads && Uses(s.threads[k], th.n))
            && forall m :: m != th.m && m in s.notifiers ==> m in s'.notifiers && s'.notifiers[m] == s.notifiers[m]
  {
    hide Inv, NotesKnown, LockKept, WaitersExact, GenerationsSeen, LateStoresSeen;
    AlwaysInv(run.earlier);
    var s, th := After(run.earlier), After(run.earlier).threads[run.t];
    ThreadKept(s, run.t, run.a);
    OnlyUser(s, run.t, th.n);
  }

  lemma ThreadKept(s: State, t: nat, a: Act)
    requires Inv(s) && Enabled(s, t, a) && a.PruneCount?
    ensures s.threads[t].PruneChecked? && s.threads[t].m in s.notifiers && s.notifiers[s.threads[t].m] == s.threads[t].n
  {
    assert Protected(s.threads[t]);
  }

  lemma OnlyUser(s: State, t: nat, n: nat)
    requires t in s.threads && Uses(s.threads[t], n)
    ensures StrongCount(s, n) <= 2 <==> forall k :: k in s.threads && Uses(s.threads[k], n) ==> k == t
  {
    forall k | k in s.threads ensures Uses(s.threads[k], n) <==> Holds(s.threads[k], n) { }
    if forall k :: k in s.threads && Uses(s.threads[k], n) ==> k == t {
      assert Holders(s, n) == {t};
    } else {
      var k :| k in s.threads && Uses(s.threads[k], n) && k != t;
      OthersHold(s, k, t, n);
    }
  }

  // It comes to that exactly if the map has its notifier and nobody sleeps on it.
  lemma PruneStartsExactly(run: Run)
    requires Possible(run) && run.Then? && run.a.PruneLock?
    ensures var s, s', th := After(run.earlier), After(run), After(run.earlier).threads[run.t];
            && (s'.threads[run.t].PruneChecked? <==>
                  th.m in s.notifiers && s.notifiers[th.m] == th.n
                  && forall k :: k in s.threads && s.threads[k].Asleep? ==> s.threads[k].n != th.n)
            && (!s'.threads[run.t].PruneChecked? ==> s' == s.(threads := s.threads[run.t := Returning(th.m, th.n)]))
  {
    hide NotesKnown, LockKept, GenerationsSeen, LateStoresSeen, NotifierStays, WaitersExact;
    AlwaysInv(run.earlier);
    var s, th := After(run.earlier), After(run.earlier).threads[run.t];
    WaitersAre(s, th.n);
  }

  lemma WaitersAre(s: State, n: nat)
    requires WaitersExact(s) && n in s.notes
    ensures s.notes[n].waiters == 0 <==> forall k :: k in s.threads && s.threads[k].Asleep? ==> s.threads[k].n != n
  {
    if s.notes[n].waiters == 0 {
      assert Sleepers(s, n) == {};
      assert forall k :: k in s.threads && s.threads[k].Asleep? && s.threads[k].n == n ==> k in Sleepers(s, n);
    } else {
      var k :| k in Sleepers(s, n);
    }
  }
}
