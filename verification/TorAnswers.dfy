// What each start ends as, exactly, and which stop ended it.
module TorAnswers {
  import opened Options
  import opened TorStart

  // Under the state lock a start of the current generation installs its
  // service; any other fails and installs nothing. Either way both locks are free.
  lemma InstallsExactly(run: Run)
    requires Possible(run) && run.Then? && run.act.CheckInstall?
    ensures var s, s', g := run.earlier.Now(), run.after, ReadBy(run.earlier.Now().tasks[run.who]);
            && g.Some? && s'.stateLock.None? && s'.startLock.None? && s'.generation == s.generation
            && (g.value == s.generation ==> s'.tasks[run.who] == Installed(g.value) && s'.installed == Some(Tor(run.who, g.value)))
            && (g.value != s.generation ==> s'.tasks[run.who].Failed? && s'.installed == s.installed)
  {
  }

  // Before it builds one, a start of another generation fails, and a current
  // one is answered with the running service if there is one.
  lemma ChecksExactly(run: Run)
    requires Possible(run) && run.Then? && run.act.CheckRunning?
    ensures var s, s', g := run.earlier.Now(), run.after, ReadBy(run.earlier.Now().tasks[run.who]);
            && g.Some? && s'.stateLock.None? && s'.installed == s.installed
            && s'.tasks[run.who] == (if g.value != s.generation then Failed
                                     else if s.installed.Some? then Answered(s.installed.value) else Working(g.value))
            && (s'.startLock.None? <==> !s'.tasks[run.who].Working?)
  {
    AlwaysInv(run.earlier);
  }

  // A stop changes the generation, then leaves nothing installed, both under
  // the state lock.
  lemma StopsExactly(run: Run)
    requires Possible(run) && run.Then? && (run.act.Bump? || run.act.Clear?)
    ensures run.earlier.Now().stateLock == Some(run.who)
    ensures run.act.Bump? ==> run.after.generation == run.earlier.Now().generation + 1 && run.after.stateLock == Some(run.who)
    ensures run.act.Clear? ==> run.after.installed.None? && run.after.stateLock.None?
  {
    AlwaysInv(run.earlier);
  }

  // ---- Who is cancelled ------------------------------------------------------------

  // A stop has signalled since start t registered for the signal.
  ghost predicate SignalledSince(run: Run, t: nat) {
    run.Then? && !(run.who == t && run.act.Register?) && (run.act.Notify? || SignalledSince(run.earlier, t))
  }

  predicate Listens(task: Task) { task.Registered? || task.Waiting? }

  // Only its own registering makes a start listen, and only a signal wakes it.
  lemma StepWakes(s: Shared, t: nat, a: Act, s': Shared, k: nat)
    requires Step(s, t, a, s') && k in s'.tasks && Listens(s'.tasks[k])
    ensures if t == k && a.Register? then !s'.tasks[k].woken
            else k in s.tasks && Listens(s.tasks[k]) && s'.tasks[k].woken == (a.Notify? || s.tasks[k].woken)
  {
  }

  lemma {:induction false} WokenExactly(run: Run, t: nat)
    requires Possible(run) && t in run.Now().tasks && Listens(run.Now().tasks[t])
    ensures run.Now().tasks[t].woken <==> SignalledSince(run, t)
  {
    hide Step, Listens;
    StepWakes(run.earlier.Now(), run.who, run.act, run.after, t);
    if !(run.who == t && run.act.Register?) { WokenExactly(run.earlier, t); }
  }

  // A step of a start makes it fail exactly when something in between went
  // wrong, its generation is over, or it waits and a stop has signalled since
  // it registered.
  lemma FailsExactly(run: Run)
    requires Possible(run) && run.Then? && run.who in run.earlier.Now().tasks
    requires ReadBy(run.earlier.Now().tasks[run.who]).Some?
    ensures run.after.tasks[run.who].Failed? <==>
              var g := ReadBy(run.earlier.Now().tasks[run.who]).value;
              || run.act.Fail?
              || ((run.act.CheckRunning? || run.act.CheckRegistered? || run.act.WorkDone? || run.act.CheckInstall?)
                  && g != run.earlier.Now().generation)
              || (run.act.Wake? && SignalledSince(run.earlier, run.who))
  {
    if run.act.Wake? { WokenExactly(run.earlier, run.who); }
  }

  lemma OneMore(run: Run, t: nat, a: Act, s: Shared) returns (more: Run)
    requires Possible(run) && Step(run.Now(), t, a, s)
    ensures more == Then(run, t, a, s) && Possible(more)
  {
    more := Then(run, t, a, s);
  }

  // So a stop can also cancel a start that began after it: this one reads the
  // generation the stop has set, and waits when the stop's signal comes.
  lemma CancelledByAnEarlierStop()
    ensures exists run :: Possible(run) && run.Then? && run.act.Wake? && run.who in run.Now().tasks && run.Now().tasks[run.who].Failed?
              && run.who in run.earlier.Now().tasks && ReadBy(run.earlier.Now().tasks[run.who]) == Some(run.Now().generation)
  {
    hide Possible;
    var run := Beginning();
    run := OneMore(run, 1, Register, run.Now().To(1, Registered(1, false)));
    run := OneMore(run, 1, CheckRegistered, run.Now().To(1, Waiting(1, false)));
    var s := run.Now();
    run := OneMore(run, 0, Notify, s.(tasks := map k | k in s.tasks :: if k == 0 then Stopped else Signalled(s.tasks[k])));
    assert run.Now().tasks[1] == Waiting(1, true);
    run := OneMore(run, 1, Wake, Left(run.Now(), 1, Failed));
  }

  // A start begun after that, building its service.
  lemma Beginning() returns (run: Run)
    ensures Possible(run) && run.Now() == Shared(1, None, None, Some(1), map[0 := Cleared, 1 := Working(1)])
  {
    hide Possible;
    run := Stopping();
    run := OneMore(run, 1, Begin, run.Now().To(1, Captured(1)));
    run := OneMore(run, 1, TakeStart, run.Now().To(1, Single(1)).(startLock := Some(1)));
    run := OneMore(run, 1, LockRunning, run.Now().To(1, RunLocked(1)).(stateLock := Some(1)));
    run := OneMore(run, 1, CheckRunning, run.Now().To(1, Working(1)).(stateLock := None));
    assert run.Now().tasks == map[0 := Cleared, 1 := Working(1)];
  }

  // A stop that has not signalled yet.
  lemma Stopping() returns (run: Run)
    ensures Possible(run) && run.Now() == Shared(1, None, None, None, map[0 := Cleared])
  {
    run := OneMore(Start, 0, LockStop, NOTHING.To(0, StopLocked).(stateLock := Some(0)));
    run := OneMore(run, 0, Bump, run.Now().To(0, Bumped).(generation := 1));
    run := OneMore(run, 0, Clear, run.Now().To(0, Cleared).(installed := None, stateLock := None));
    assert run.Now().tasks == map[0 := Cleared];
  }
}
