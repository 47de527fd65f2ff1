// Starting and stopping Tor: tasks that share a generation counter, the state
// under its lock, a lock for one start at a time, and a cancel signal.
module TorStart {
  import opened Options

  // The running service: the start that installed it and the generation that
  // start had read.
  datatype Tor = Tor(owner: nat, generation: nat)

  // Where a task is. A start: Captured .. Installed; a stop: Stopping .. Stopped.
  // Locked tasks hold the state lock. woken: the cancel signal has reached it.
  datatype Task =
    | Captured(g: nat)
    | Single(g: nat)
    | RunLocked(g: nat)
    | Working(g: nat)
    | Registered(g: nat, woken: bool)
    | Waiting(g: nat, woken: bool)
    | Launching(g: nat)
    | InstallLocked(g: nat)
    | Installed(g: nat)
    | Answered(tor: Tor)
    | Failed
    | StopLocked
    | Bumped
    | Cleared
    | Stopped

  datatype Shared = Shared(generation: nat, installed: Option<Tor>, stateLock: Option<nat>, startLock: Option<nat>, tasks: map<nat, Task>)
  {
    function To(t: nat, task: Task): Shared { this.(tasks := tasks[t := task]) }
  }

  const NOTHING := Shared(0, None, None, None, map[])

  datatype Act =
    | Begin | TakeStart | LockRunning | CheckRunning | Register | CheckRegistered | WorkDone | Wake | LockInstall | CheckInstall | Fail
    | LockStop | Bump | Clear | Notify

  // The start returns, and with it its hold on the start lock.
  function Left(s: Shared, t: nat, end: Task): Shared { s.To(t, end).(startLock := None) }

  function Signalled(task: Task): Task {
    match task
    case Registered(g, _) => Registered(g, true)
    case Waiting(g, _) => Waiting(g, true)
    case _ => task
  }

  ghost predicate Step(s: Shared, t: nat, a: Act, s': Shared) {
    match a
    case Begin => t !in s.tasks && s' == s.To(t, Captured(s.generation))
    case LockStop => t !in s.tasks && s.stateLock.None? && s' == s.To(t, StopLocked).(stateLock := Some(t))
    case _ => t in s.tasks && TaskStep(s, t, a, s.tasks[t], s')
  }

  ghost predicate TaskStep(s: Shared, t: nat, a: Act, task: Task, s': Shared) {
    match a
    case TakeStart => task.Captured? && s.startLock.None? && s' == s.To(t, Single(task.g)).(startLock := Some(t))
    case LockRunning => task.Single? && s.stateLock.None? && s' == s.To(t, RunLocked(task.g)).(stateLock := Some(t))
    case CheckRunning =>
      && task.RunLocked?
      && s' == (if s.generation != task.g then Left(s, t, Failed)
                else if s.installed.Some? then Left(s, t, Answered(s.installed.value))
                else s.To(t, Working(task.g))).(stateLock := None)
    case Register => task.Working? && s' == s.To(t, Registered(task.g, false))
    case CheckRegistered =>
      task.Registered? && s' == if s.generation != task.g then Left(s, t, Failed) else s.To(t, Waiting(task.g, task.woken))
    case WorkDone => task.Waiting? && s' == if s.generation == task.g then s.To(t, Launching(task.g)) else Left(s, t, Failed)
    case Wake => task.Waiting? && task.woken && s' == Left(s, t, Failed)
    case LockInstall => task.Launching? && s.stateLock.None? && s' == s.To(t, InstallLocked(task.g)).(stateLock := Some(t))
    case CheckInstall =>
      && task.InstallLocked?
      && s' == (if s.generation != task.g then Left(s, t, Failed)
                else Left(s, t, Installed(task.g)).(installed := Some(Tor(t, task.g)))).(stateLock := None)
    case Fail => (task.Working? || task.Waiting? || task.Launching?) && s' == Left(s, t, Failed)
    case Bump => task.StopLocked? && s' == s.To(t, Bumped).(generation := s.generation + 1)
    case Clear => task.Bumped? && s' == s.To(t, Cleared).(installed := None, stateLock := None)
    case Notify =>
      task.Cleared? && s' == s.(tasks := map k | k in s.tasks :: if k == t then Stopped else Signalled(s.tasks[k]))
    case _ => false
  }

  datatype Run = Start | Then(earlier: Run, who: nat, act: Act, after: Shared)
  {
    function Now(): Shared { if Start? then NOTHING else after }
  }

  ghost predicate Possible(run: Run) {
    run.Then? ==> Possible(run.earlier) && Step(run.earlier.Now(), run.who, run.act, run.after)
  }

  // ---- What every interleaving keeps -------------------------------------------------

  predicate HoldsState(task: Task) { task.RunLocked? || task.InstallLocked? || task.StopLocked? || task.Bumped? }

  // Past the check that nothing is running: the service may be being built.
  predicate Building(task: Task) {
    task.Working? || task.Registered? || task.Waiting? || task.Launching? || task.InstallLocked?
  }

  predicate HoldsStart(task: Task) { task.Single? || task.RunLocked? || Building(task) }

  predicate StopPending(task: Task) { task.Bumped? || task.Cleared? }

  ghost predicate SignalComing(s: Shared) { exists k :: k in s.tasks && StopPending(s.tasks[k]) }

  ghost predicate StateLocked(s: Shared) { forall t :: t in s.tasks && HoldsState(s.tasks[t]) ==> s.stateLock == Some(t) }

  ghost predicate StartLocked(s: Shared) { forall t :: t in s.tasks && HoldsStart(s.tasks[t]) ==> s.startLock == Some(t) }

  ghost predicate Locks(s: Shared) { StateLocked(s) && StartLocked(s) }

  // What is installed is current, unless the stop that made it stale is
  // just taking it out.
  ghost predicate InstalledCurrent(s: Shared) {
    s.installed.Some? && s.installed.value.generation != s.generation ==> exists k :: k in s.tasks && s.tasks[k].Bumped?
  }

  // While a service is being built none is installed.
  ghost predicate NoneWhileBuilding(s: Shared) {
    forall t :: t in s.tasks && Building(s.tasks[t]) ==> s.installed.None?
  }

  // A start past its check is current, or was signalled, or will be.
  ghost predicate StaleAreSignalled(s: Shared) {
    forall t :: t in s.tasks && s.tasks[t].Waiting? ==> s.tasks[t].g == s.generation || s.tasks[t].woken || SignalComing(s)
  }

  ghost predicate Inv(s: Shared) {
    Locks(s) && InstalledCurrent(s) && NoneWhileBuilding(s) && StaleAreSignalled(s)
  }

  lemma StepKeepsStateLock(s: Shared, t: nat, a: Act, s': Shared)
    requires StateLocked(s) && Step(s, t, a, s')
    ensures StateLocked(s')
  {
    forall k | k in s'.tasks && HoldsState(s'.tasks[k]) ensures s'.stateLock == Some(k) {
      if k != t { assert HoldsState(s.tasks[k]); }
    }
  }

  lemma StepKeepsStartLock(s: Shared, t: nat, a: Act, s': Shared)
    requires StartLocked(s) && Step(s, t, a, s')
    ensures StartLocked(s')
  {
    forall k | k in s'.tasks && HoldsStart(s'.tasks[k]) ensures s'.startLock == Some(k) {
      if k != t { assert HoldsStart(s.tasks[k]); }
    }
  }

  lemma StepKeepsInstalled(s: Shared, t: nat, a: Act, s': Shared)
    requires Locks(s) && InstalledCurrent(s) && Step(s, t, a, s')
    ensures InstalledCurrent(s')
  {
    if a.Bump? { assert s'.tasks[t].Bumped?; }
    if s.installed.Some? && s.installed.value.generation != s.generation {
      var k :| k in s.tasks && s.tasks[k].Bumped?;
      assert k != t ==> s'.tasks[k] == s.tasks[k];
    }
  }

  lemma StepKeepsBuilding(s: Shared, t: nat, a: Act, s': Shared)
    requires Locks(s) && NoneWhileBuilding(s) && Step(s, t, a, s')
    ensures NoneWhileBuilding(s')
  {
    forall k | k in s'.tasks && Building(s'.tasks[k]) ensures s'.installed.None? {
      if k != t { assert Building(s.tasks[k]); }
    }
  }

  lemma SignalStays(s: Shared, t: nat, a: Act, s': Shared)
    requires SignalComing(s) && Step(s, t, a, s') && !a.Notify?
    ensures SignalComing(s')
  {
    var k :| k in s.tasks && StopPending(s.tasks[k]);
    assert StopPending(s'.tasks[k]);
  }

  lemma StepKeepsSignals(s: Shared, t: nat, a: Act, s': Shared)
    requires StaleAreSignalled(s) && Step(s, t, a, s')
    ensures StaleAreSignalled(s')
  {
    if a.Bump? { assert StopPending(s'.tasks[t]); }
    forall k | k in s'.tasks && s'.tasks[k].Waiting?
      ensures s'.tasks[k].g == s'.generation || s'.tasks[k].woken || SignalComing(s')
    {
      if !a.Notify? && !a.Bump? && SignalComing(s) { SignalStays(s, t, a, s'); }
      assert k != t && !a.Notify? ==> s'.tasks[k] == s.tasks[k];
    }
  }

  lemma {:induction false} AlwaysInv(run: Run)
    requires Possible(run)
    ensures Inv(run.Now())
  {
    match run
    case Start =>
    case Then(earlier, t, a, after) =>
      hide Step, StateLocked, StartLocked, InstalledCurrent, NoneWhileBuilding, StaleAreSignalled;
      AlwaysInv(earlier);
      StepKeepsStateLock(earlier.Now(), t, a, after);
      StepKeepsStartLock(earlier.Now(), t, a, after);
      StepKeepsInstalled(earlier.Now(), t, a, after);
      StepKeepsBuilding(earlier.Now(), t, a, after);
      StepKeepsSignals(earlier.Now(), t, a, after);
  }

  // ---- What that means for starts and stops -----------------------------------------------

  // Under the state lock, as every reader and installer sees it, an installed
  // service is one whose start read the current generation.
  lemma InstalledIsCurrent(run: Run)
    requires Possible(run) && run.Now().installed.Some?
    requires forall k :: k in run.Now().tasks ==> !run.Now().tasks[k].Bumped?
    ensures run.Now().installed.value.generation == run.Now().generation
  {
    AlwaysInv(run);
  }

  // Installing puts a current service where there was none.
  lemma InstallsOnce(run: Run)
    requires Possible(run) && run.Then? && run.after.installed.Some? && run.after.installed != run.earlier.Now().installed
    ensures run.act.CheckInstall? && run.earlier.Now().installed.None?
    ensures run.after.installed == Some(Tor(run.who, run.after.generation))
  {
    AlwaysInv(run.earlier);
    assert Building(run.earlier.Now().tasks[run.who]);
  }

  // Whoever is answered with a running service is answered with a current one.
  lemma AnswerIsCurrent(run: Run)
    requires Possible(run) && run.Then? && run.act.CheckRunning? && run.after.tasks[run.who].Answered?
    ensures run.after.tasks[run.who].tor.generation == run.after.generation
  {
    AlwaysInv(run.earlier);
  }

  // Once no stop is under way, every start left over from an older generation
  // has been woken: none sleeps through a stop.
  lemma NoneSleepsThroughStop(run: Run, t: nat)
    requires Possible(run) && !SignalComing(run.Now())
    requires t in run.Now().tasks && run.Now().tasks[t].Waiting? && run.Now().tasks[t].g != run.Now().generation
    ensures run.Now().tasks[t].woken
  {
    AlwaysInv(run);
  }

  // What a start from generation g has ended as by now, if anything.
  ghost predicate Gone(task: Task) { task.Answered? || task.Failed? || task.Installed? }

  ghost predicate Earlier(p: Run, run: Run) { p == run || (run.Then? && Earlier(p, run.earlier)) }

  lemma {:induction false} GenerationGrows(p: Run, run: Run)
    requires Possible(run) && Earlier(p, run)
    ensures p.Now().generation <= run.Now().generation
  {
    if p != run { GenerationGrows(p, run.earlier); }
  }

  function ReadBy(task: Task): Option<nat> {
    match task
    case Captured(g) => Some(g)
    case Single(g) => Some(g)
    case RunLocked(g) => Some(g)
    case Working(g) => Some(g)
    case Registered(g, _) => Some(g)
    case Waiting(g, _) => Some(g)
    case Launching(g) => Some(g)
    case InstallLocked(g) => Some(g)
    case Installed(g) => Some(g)
    case _ => None
  }

  lemma ReadStays(s: Shared, t: nat, a: Act, s': Shared, k: nat)
    requires Step(s, t, a, s') && k in s.tasks && ReadBy(s.tasks[k]).Some?
    ensures k in s'.tasks && (ReadBy(s'.tasks[k]) == ReadBy(s.tasks[k]) || Gone(s'.tasks[k]))
    ensures s.tasks[k].Installed? ==> s'.tasks[k] == s.tasks[k]
  {
  }

  // A start that read its generation before a stop never installs after it.
  lemma {:induction false} NoInstallAfterStop(p: Run, run: Run, k: nat)
    requires Possible(run) && run.Then? && Earlier(p, run.earlier) && run.act.CheckInstall? && run.who == k
    requires k in p.Now().tasks && ReadBy(p.Now().tasks[k]).Some? && ReadBy(p.Now().tasks[k]).value < p.Now().generation
    ensures run.after.tasks[k].Failed? && run.after.installed == run.earlier.Now().installed
  {
    GenerationGrows(p, run.earlier);
    StillRead(p, run.earlier, k);
  }

  lemma {:induction false} StillRead(p: Run, run: Run, k: nat)
    requires Possible(run) && Earlier(p, run) && k in p.Now().tasks && ReadBy(p.Now().tasks[k]).Some?
    ensures k in run.Now().tasks
    ensures ReadBy(run.Now().tasks[k]) == ReadBy(p.Now().tasks[k]) || Gone(run.Now().tasks[k])
  {
    if p != run {
      StillRead(p, run.earlier, k);
      var task := run.earlier.Now().tasks[k];
      if ReadBy(task).Some? { ReadStays(run.earlier.Now(), run.who, run.act, run.after, k); }
    }
  }
}
