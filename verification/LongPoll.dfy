// The long-poll protocol: fetches that sleep on a mailbox's notifier, stores
// that bump it, and pruning of notifiers nobody else holds. Every step below
// is what one thread does under one lock.
module LongPoll {
  import opened Options
  import opened Numbers

  datatype Note = Note(generation: nat, waiters: nat)

  // A thread's position and the values it holds there. n is the notifier it
  // has a reference to; g the generation it observed; late the stores to its
  // mailbox committed since its first drain.
  datatype Thread =
    | FetchStart(m: string)
    | Took(m: string, n: nat)
    | Observed(m: string, n: nat, g: nat)
    | FirstEmpty(m: string, n: nat, g: nat, late: set<nat>)
    | Asleep(m: string, n: nat, g: nat, late: set<nat>, woken: bool)
    | Second(m: string, n: nat)
    | Pruning(m: string, n: nat)
    | PruneChecked(m: string, n: nat)
    | Returning(m: string, n: nat)
    | FetchDone
    | StoreStart(m: string)
    | Committed(m: string)
    | Found(m: string, n: nat)
    | Bumped(m: string, n: nat)
    | StoreDone

  // mapLock: the thread that keeps the notifier map locked between steps.
  datatype State = State(notifiers: map<string, nat>, notes: map<nat, Note>, threads: map<nat, Thread>,
                         mapLock: Option<nat>, nextNote: nat)

  datatype Drain = Nothing | Something | Failed

  datatype Act =
    | Spawn(thread: Thread)
    | NotifierFor
    | ReadGeneration
    | FirstDrain(found: Drain)
    | CheckGeneration
    | Resume(timedOut: bool)
    | SecondDrain(failed: bool)
    | PruneLock
    | PruneCount
    | Return
    | Commit
    | Lookup
    | Bump
    | Drop

  predicate Holds(th: Thread, n: nat) {
    match th
    case Took(_, k) => k == n
    case Observed(_, k, _) => k == n
    case FirstEmpty(_, k, _, _) => k == n
    case Asleep(_, k, _, _, _) => k == n
    case Second(_, k) => k == n
    case Pruning(_, k) => k == n
    case PruneChecked(_, k) => k == n
    case Returning(_, k) => k == n
    case Found(_, k) => k == n
    case Bumped(_, k) => k == n
    case _ => false
  }

  function Holders(s: State, n: nat): set<nat> { set t | t in s.threads && Holds(s.threads[t], n) }

  // Arc::strong_count: the map's own reference and one per holding thread.
  function StrongCount(s: State, n: nat): nat { 1 + |Holders(s, n)| }

  function Sleepers(s: State, n: nat): set<nat> {
    set t | t in s.threads && s.threads[t].Asleep? && s.threads[t].n == n
  }

  predicate Enabled(s: State, t: nat, a: Act) {
    match a
    case Spawn(th) => t !in s.threads && (th.FetchStart? || th.StoreStart?)
    case NotifierFor => t in s.threads && s.threads[t].FetchStart? && s.mapLock.None?
    case ReadGeneration => t in s.threads && s.threads[t].Took? && s.threads[t].n in s.notes
    case FirstDrain(_) => t in s.threads && s.threads[t].Observed?
    case CheckGeneration => t in s.threads && s.threads[t].FirstEmpty? && s.threads[t].n in s.notes
    case Resume(timedOut) =>
      t in s.threads && s.threads[t].Asleep? && s.threads[t].n in s.notes && (s.threads[t].woken || timedOut)
    case SecondDrain(_) => t in s.threads && s.threads[t].Second?
    case PruneLock => t in s.threads && s.threads[t].Pruning? && s.threads[t].n in s.notes && s.mapLock.None?
    case PruneCount => t in s.threads && s.threads[t].PruneChecked?
    case Return => t in s.threads && s.threads[t].Returning?
    case Commit => t in s.threads && s.threads[t].StoreStart?
    case Lookup => t in s.threads && s.threads[t].Committed? && s.mapLock.None?
    case Bump => t in s.threads && s.threads[t].Found? && s.threads[t].n in s.notes
    case Drop => t in s.threads && s.threads[t].Bumped?
  }

  // A commit by [store] to mailbox m, as the fetches past their first drain see it.
  function Noticed(th: Thread, m: string, store: nat): Thread {
    match th
    case FirstEmpty(k, n, g, late) => if k == m then FirstEmpty(k, n, g, late + {store}) else th
    case Asleep(k, n, g, late, woken) => if k == m then Asleep(k, n, g, late + {store}, woken) else th
    case _ => th
  }

  function Woken(th: Thread, n: nat): Thread { if th.Asleep? && th.n == n then th.(woken := true) else th }

  function Do(s: State, t: nat, a: Act): State
    requires Enabled(s, t, a)
  {
    match a
    case Spawn(th) => s.(threads := s.threads[t := th])
    case NotifierFor =>
      var m := s.threads[t].m;
      if m in s.notifiers then s.(threads := s.threads[t := Took(m, s.notifiers[m])])
      else
        s.(threads := s.threads[t := Took(m, s.nextNote)], notifiers := s.notifiers[m := s.nextNote],
           notes := s.notes[s.nextNote := Note(0, 0)], nextNote := s.nextNote + 1)
    case ReadGeneration =>
      var th := s.threads[t];
      s.(threads := s.threads[t := Observed(th.m, th.n, s.notes[th.n].generation)])
    case FirstDrain(found) =>
      var th := s.threads[t];
      s.(threads := s.threads[t := match found
                                   case Nothing => FirstEmpty(th.m, th.n, th.g, {})
                                   case Something => Pruning(th.m, th.n)
                                   case Failed => FetchDone])
    case CheckGeneration =>
      var th := s.threads[t];
      var note := s.notes[th.n];
      if note.generation == th.g then
        s.(threads := s.threads[t := Asleep(th.m, th.n, th.g, th.late, false)],
           notes := s.notes[th.n := note.(waiters := note.waiters + 1)])
      else s.(threads := s.threads[t := Second(th.m, th.n)])
    case Resume(timedOut) =>
      var th := s.threads[t];
      var note := s.notes[th.n];
      if note.generation != th.g || timedOut then
        s.(threads := s.threads[t := Second(th.m, th.n)],
           notes := s.notes[th.n := note.(waiters := if note.waiters == 0 then 0 else note.waiters - 1)])
      else s.(threads := s.threads[t := th.(woken := false)])
    case SecondDrain(failed) =>
      var th := s.threads[t];
      s.(threads := s.threads[t := if failed then FetchDone else Pruning(th.m, th.n)])
    case PruneLock =>
      var th := s.threads[t];
      if th.m in s.notifiers && s.notifiers[th.m] == th.n && s.notes[th.n].waiters == 0 then
        s.(threads := s.threads[t := PruneChecked(th.m, th.n)], mapLock := Some(t))
      else s.(threads := s.threads[t := Returning(th.m, th.n)])
    case PruneCount =>
      var th := s.threads[t];
      var out := s.(threads := s.threads[t := Returning(th.m, th.n)], mapLock := None);
      if StrongCount(s, th.n) <= 2 then out.(notifiers := s.notifiers - {th.m}) else out
    case Return => s.(threads := s.threads[t := FetchDone])
    case Commit =>
      var m := s.threads[t].m;
      s.(threads := map k | k in s.threads :: if k == t then Committed(m) else Noticed(s.threads[k], m, t))
    case Lookup =>
      var m := s.threads[t].m;
      s.(threads := s.threads[t := if m in s.notifiers then Found(m, s.notifiers[m]) else StoreDone])
    case Bump =>
      var th := s.threads[t];
      var note := s.notes[th.n];
      s.(threads := map k | k in s.threads :: if k == t then Bumped(th.m, th.n) else Woken(s.threads[k], th.n),
         notes := s.notes[th.n := note.(generation := note.generation + 1)])
    case Drop => s.(threads := s.threads[t := StoreDone])
  }

  const INIT := State(map[], map[], map[], None, 0)

  // A run, latest step outermost.
  datatype Run = Begin | Then(earlier: Run, t: nat, a: Act)

  ghost predicate Possible(run: Run)
    decreases run, 0
  {
    run.Then? ==> Possible(run.earlier) && Enabled(After(run.earlier), run.t, run.a)
  }

  ghost function After(run: Run): State
    requires Possible(run)
    decreases run, 1
  {
    if run.Begin? then INIT else Do(After(run.earlier), run.t, run.a)
  }

  // ---- The invariant ---------------------------------------------------------

  // A fetch between taking its notifier and the end of its own prune.
  predicate Protected(th: Thread) {
    th.Took? || th.Observed? || th.FirstEmpty? || th.Asleep? || th.Second? || th.Pruning? || th.PruneChecked?
  }

  ghost predicate NotifierStays(s: State) {
    forall t :: t in s.threads && Protected(s.threads[t]) ==>
      s.threads[t].m in s.notifiers && s.notifiers[s.threads[t].m] == s.threads[t].n
  }

  ghost predicate NotesKnown(s: State) {
    && (forall m :: m in s.notifiers ==> s.notifiers[m] in s.notes)
    && (forall n :: n in s.notes ==> n < s.nextNote)
    && (forall t, n :: t in s.threads && Holds(s.threads[t], n) ==> n in s.notes)
  }

  ghost predicate LockKept(s: State) {
    && (forall t :: t in s.threads && s.threads[t].PruneChecked? ==> s.mapLock == Some(t))
    && (s.mapLock.Some? ==> s.mapLock.value in s.threads && s.threads[s.mapLock.value].PruneChecked?)
  }

  ghost predicate WaitersExact(s: State) {
    forall n :: n in s.notes ==> s.notes[n].waiters == |Sleepers(s, n)|
  }

  ghost predicate GenerationsSeen(s: State) {
    && (forall t :: t in s.threads && s.threads[t].Observed? && s.threads[t].n in s.notes ==>
          s.threads[t].g <= s.notes[s.threads[t].n].generation)
    && (forall t :: t in s.threads && s.threads[t].FirstEmpty? && s.threads[t].n in s.notes ==>
          s.threads[t].g <= s.notes[s.threads[t].n].generation)
    && (forall t :: t in s.threads && s.threads[t].Asleep? && s.threads[t].n in s.notes ==>
          s.threads[t].g <= s.notes[s.threads[t].n].generation &&
          (!s.threads[t].woken ==> s.threads[t].g == s.notes[s.threads[t].n].generation))
  }

  // A store committed since the fetch's first drain is still to look the
  // notifier up, or to bump the very one the fetch uses, or has moved its
  // generation past what the fetch observed.
  ghost predicate LateStore(s: State, m: string, n: nat, g: nat, store: nat) {
    && store in s.threads
    && match s.threads[store]
       case Committed(k) => k == m
       case Found(k, p) => k == m && p == n
       case Bumped(_, _) => n in s.notes && s.notes[n].generation > g
       case StoreDone => n in s.notes && s.notes[n].generation > g
       case _ => false
  }

  ghost predicate LateStoresSeen(s: State) {
    && (forall t, store :: t in s.threads && s.threads[t].FirstEmpty? && store in s.threads[t].late ==>
          LateStore(s, s.threads[t].m, s.threads[t].n, s.threads[t].g, store))
    && (forall t, store :: t in s.threads && s.threads[t].Asleep? && store in s.threads[t].late ==>
          LateStore(s, s.threads[t].m, s.threads[t].n, s.threads[t].g, store))
  }

  ghost predicate Inv(s: State) {
    NotifierStays(s) && NotesKnown(s) && LockKept(s) && WaitersExact(s) && GenerationsSeen(s) && LateStoresSeen(s)
  }

  // ---- Each step keeps it ------------------------------------------------------

  // Nobody but a notifier's last user can remove it from the map.
  lemma OthersHold(s: State, t: nat, p: nat, n: nat)
    requires t != p && t in s.threads && p in s.threads && Holds(s.threads[t], n) && Holds(s.threads[p], n)
    ensures StrongCount(s, n) >= 3
  {
    var pair := {t, p};
    assert pair <= Holders(s, n);
    SubsetSize(pair, Holders(s, n));
  }

  // A thread keeps its mailbox and notifier while another takes a step.
  lemma OtherThread(s: State, t: nat, a: Act, k: nat)
    requires Enabled(s, t, a) && k in Do(s, t, a).threads && k != t
    ensures k in s.threads
    ensures var th, th' := s.threads[k], Do(s, t, a).threads[k];
            && (Protected(th') <==> Protected(th)) && (Protected(th) ==> th'.m == th.m && th'.n == th.n)
            && forall n :: Holds(th', n) <==> Holds(th, n)
  {
    hide Holders, StrongCount;
  }

  // A step forgets no notifier, and knows the one its own thread holds.
  lemma OwnNotes(s: State, t: nat, a: Act)
    requires NotesKnown(s) && Enabled(s, t, a)
    ensures var s' := Do(s, t, a);
            (forall n :: n in s.notes ==> n in s'.notes) && forall n :: Holds(s'.threads[t], n) ==> n in s'.notes
  {
    hide StrongCount;
    assert t in s.threads ==> forall n :: Holds(s.threads[t], n) ==> n in s.notes;
  }

  // Only the last user of a notifier takes it out of the map.
  lemma MapAfter(s: State, t: nat, a: Act)
    requires Enabled(s, t, a)
    ensures var s' := Do(s, t, a);
            forall m :: m in s.notifiers ==>
              if m in s'.notifiers then s'.notifiers[m] == s.notifiers[m]
              else a.PruneCount? && s.threads[t].m == m && StrongCount(s, s.threads[t].n) <= 2
  {
    hide StrongCount;
  }

  lemma OwnNotifier(s: State, t: nat, a: Act)
    requires NotifierStays(s) && Enabled(s, t, a) && Protected(Do(s, t, a).threads[t])
    ensures var th := Do(s, t, a).threads[t];
            th.m in Do(s, t, a).notifiers && Do(s, t, a).notifiers[th.m] == th.n
  {
    hide StrongCount;
  }

  lemma StepNotifierStays(s: State, t: nat, a: Act)
    requires Inv(s) && Enabled(s, t, a)
    ensures NotifierStays(Do(s, t, a))
  {
    hide WaitersExact, GenerationsSeen, LateStoresSeen, StrongCount, LockKept, NotesKnown, Do;
    var s' := Do(s, t, a);
    MapAfter(s, t, a);
    forall k | k in s'.threads && Protected(s'.threads[k])
      ensures s'.threads[k].m in s'.notifiers && s'.notifiers[s'.threads[k].m] == s'.threads[k].n
    {
      if k == t {
        OwnNotifier(s, t, a);
      } else {
        OtherThread(s, t, a, k);
        if s.threads[k].m !in s'.notifiers { OthersHold(s, k, t, s.threads[t].n); }
      }
    }
  }

  lemma StepNotesKnown(s: State, t: nat, a: Act)
    requires Inv(s) && Enabled(s, t, a)
    ensures NotesKnown(Do(s, t, a))
  {
    hide WaitersExact, GenerationsSeen, LateStoresSeen, StrongCount, LockKept, Holds, Do, NotifierStays;
    var s' := Do(s, t, a);
    OwnNotes(s, t, a);
    NewNotes(s, t, a);
    forall k, n | k in s'.threads && Holds(s'.threads[k], n) ensures n in s'.notes {
      if k != t { OtherThread(s, t, a, k); }
    }
  }

  lemma NewNotes(s: State, t: nat, a: Act)
    requires NotesKnown(s) && Enabled(s, t, a)
    ensures var s' := Do(s, t, a);
            (forall m :: m in s'.notifiers ==> s'.notifiers[m] in s'.notes) && forall n :: n in s'.notes ==> n < s'.nextNote
  {
    hide StrongCount;
  }

  lemma StepLockKept(s: State, t: nat, a: Act)
    requires Inv(s) && Enabled(s, t, a)
    ensures LockKept(Do(s, t, a))
  {
    hide WaitersExact, GenerationsSeen, LateStoresSeen, Sleepers, Holders, StrongCount, NotesKnown, NotifierStays;
  }

  lemma StepWaiters(s: State, t: nat, a: Act)
    requires Inv(s) && Enabled(s, t, a)
    ensures WaitersExact(Do(s, t, a))
  {
    hide GenerationsSeen, LateStoresSeen, Holders, StrongCount, LockKept, NotifierStays, Sleepers, Do;
    var s' := Do(s, t, a);
    forall n | n in s'.notes ensures s'.notes[n].waiters == |Sleepers(s', n)| {
      SleepersStep(s, t, a, n);
    }
  }

  predicate SleepsOn(th: Thread, n: nat) { th.Asleep? && th.n == n }

  // Only a sleeper's own steps change who sleeps.
  lemma OthersSleepOn(s: State, t: nat, a: Act, n: nat)
    requires Enabled(s, t, a)
    ensures forall k :: k != t ==> (k in Sleepers(s, n) <==> k in Sleepers(Do(s, t, a), n))
    ensures t in Sleepers(s, n) <==> t in s.threads && SleepsOn(s.threads[t], n)
    ensures t in Sleepers(Do(s, t, a), n) <==> SleepsOn(Do(s, t, a).threads[t], n)
  {
    hide Holders, StrongCount;
    var s' := Do(s, t, a);
    forall k | k != t ensures k in Sleepers(s, n) <==> k in Sleepers(s', n) {
      if k in s.threads { assert SleepsOn(s.threads[k], n) <==> SleepsOn(s'.threads[k], n); }
    }
  }

  lemma CounterStep(s: State, t: nat, a: Act, n: nat)
    requires NotesKnown(s) && Enabled(s, t, a) && n in Do(s, t, a).notes
    ensures var s' := Do(s, t, a);
            var slept, sleeps := t in s.threads && SleepsOn(s.threads[t], n), SleepsOn(s'.threads[t], n);
            if n !in s.notes then s'.notes[n].waiters == 0 && !sleeps
            else if sleeps && !slept then s'.notes[n].waiters == s.notes[n].waiters + 1
            else if slept && !sleeps then s.notes[n].waiters > 0 ==> s'.notes[n].waiters == s.notes[n].waiters - 1
            else s'.notes[n].waiters == s.notes[n].waiters
  {
    hide Holders, StrongCount;
  }

  lemma SleepersStep(s: State, t: nat, a: Act, n: nat)
    requires Inv(s) && Enabled(s, t, a) && n in Do(s, t, a).notes
    ensures Do(s, t, a).notes[n].waiters == |Sleepers(Do(s, t, a), n)|
  {
    hide GenerationsSeen, LateStoresSeen, StrongCount, LockKept, NotifierStays, Holders, Sleepers, Do, Enabled, SleepsOn;
    var s' := Do(s, t, a);
    OthersSleepOn(s, t, a, n);
    CounterStep(s, t, a, n);
    if n !in s.notes {
      NoSleepers(s, n);
      assert Sleepers(s', n) == {};
    } else if t in Sleepers(s', n) && t !in Sleepers(s, n) {
      assert Sleepers(s', n) == Sleepers(s, n) + {t};
    } else if t in Sleepers(s, n) && t !in Sleepers(s', n) {
      assert Sleepers(s', n) == Sleepers(s, n) - {t};
    } else {
      assert Sleepers(s', n) == Sleepers(s, n);
    }
  }

  lemma NoSleepers(s: State, n: nat)
    requires NotesKnown(s) && n !in s.notes
    ensures Sleepers(s, n) == {}
  {
    forall k | k in Sleepers(s, n) ensures false { assert Holds(s.threads[k], n); }
  }

  lemma GenerationsGrow(s: State, t: nat, a: Act)
    requires NotesKnown(s) && Enabled(s, t, a)
    ensures forall n :: n in s.notes ==>
              n in Do(s, t, a).notes && s.notes[n].generation <= Do(s, t, a).notes[n].generation
    ensures forall n :: n in s.notes && !(a.Bump? && s.threads[t].n == n) ==>
              s.notes[n].generation == Do(s, t, a).notes[n].generation
    ensures a.Bump? ==> Do(s, t, a).notes[s.threads[t].n].generation == s.notes[s.threads[t].n].generation + 1
  {
    hide Holders, StrongCount;
  }

  // What a step by t leaves of another thread.
  lemma OtherThreads(s: State, t: nat, a: Act, k: nat)
    requires Enabled(s, t, a) && k != t && k in Do(s, t, a).threads
    ensures k in s.threads
    ensures Do(s, t, a).threads[k] == (if a.Commit? then Noticed(s.threads[k], s.threads[t].m, t)
                                       else if a.Bump? then Woken(s.threads[k], s.threads[t].n)
                                       else s.threads[k])
  {
    hide Holders, StrongCount;
  }

  ghost predicate GenerationSeen(s: State, th: Thread) {
    (th.Observed? || th.FirstEmpty? || th.Asleep?) && th.n in s.notes ==>
      && th.g <= s.notes[th.n].generation
      && (th.Asleep? && !th.woken ==> th.g == s.notes[th.n].generation)
  }

  lemma StepGenerations(s: State, t: nat, a: Act)
    requires Inv(s) && Enabled(s, t, a)
    ensures GenerationsSeen(Do(s, t, a))
  {
    hide WaitersExact, LateStoresSeen, Holders, StrongCount, LockKept, NotifierStays, Sleepers, Do, Enabled;
    var s' := Do(s, t, a);
    forall k | k in s'.threads ensures GenerationSeen(s', s'.threads[k]) {
      if k == t {
        OwnGeneration(s, t, a);
      } else {
        OtherThreads(s, t, a, k);
        GenerationsGrow(s, t, a);
        var th := s.threads[k];
        assert GenerationSeen(s, th);
        if th.Observed? || th.FirstEmpty? || th.Asleep? { assert Holds(th, th.n); }
      }
    }
  }

  lemma OwnGeneration(s: State, t: nat, a: Act)
    requires Inv(s) && Enabled(s, t, a)
    ensures t in Do(s, t, a).threads && GenerationSeen(Do(s, t, a), Do(s, t, a).threads[t])
  {
    hide WaitersExact, LateStoresSeen, Holders, StrongCount, LockKept, NotifierStays, Sleepers;
    if t in s.threads { assert GenerationSeen(s, s.threads[t]); }
  }

  lemma StepLateStores(s: State, t: nat, a: Act)
    requires Inv(s) && Enabled(s, t, a)
    ensures LateStoresSeen(Do(s, t, a))
  {
    hide WaitersExact, GenerationsSeen, Holders, StrongCount, LockKept, Sleepers, Do, Enabled, LateStore;
    var s' := Do(s, t, a);
    forall k, store | k in s'.threads && (s'.threads[k].FirstEmpty? || s'.threads[k].Asleep?) && store in s'.threads[k].late
      ensures LateStore(s', s'.threads[k].m, s'.threads[k].n, s'.threads[k].g, store)
    {
      LateStoreStep(s, t, a, k, store);
    }
  }

  // A store that was late for a fetch is so after the step as well.
  lemma LateStoreKept(s: State, t: nat, a: Act, th: Thread, store: nat)
    requires Inv(s) && Enabled(s, t, a)
    requires th.FirstEmpty? || th.Asleep?
    requires th.m in s.notifiers && s.notifiers[th.m] == th.n && th.n in s.notes
    requires th.g <= s.notes[th.n].generation
    requires LateStore(s, th.m, th.n, th.g, store)
    ensures LateStore(Do(s, t, a), th.m, th.n, th.g, store)
  {
    hide WaitersExact, GenerationsSeen, LateStoresSeen, Holders, StrongCount, LockKept, Sleepers, NotifierStays;
    GenerationsGrow(s, t, a);
    if store != t {
      OtherStays(s, t, a, store);
      OtherThreads(s, t, a, store);
    }
  }

  lemma OtherStays(s: State, t: nat, a: Act, k: nat)
    requires Enabled(s, t, a) && k in s.threads
    ensures k in Do(s, t, a).threads
  {
    hide Holders, StrongCount;
  }

  // The fetch's own step out of an empty drain or into its sleep keeps what
  // it holds; a commit adds one store, which is then about to look up.
  lemma LateStoreStep(s: State, t: nat, a: Act, k: nat, store: nat)
    requires Inv(s) && Enabled(s, t, a)
    requires var s' := Do(s, t, a);
             k in s'.threads && (s'.threads[k].FirstEmpty? || s'.threads[k].Asleep?) && store in s'.threads[k].late
    ensures var s' := Do(s, t, a);
            LateStore(s', s'.threads[k].m, s'.threads[k].n, s'.threads[k].g, store)
  {
    hide WaitersExact, Holders, StrongCount, LockKept, Sleepers, Do, Enabled;
    var s' := Do(s, t, a);
    LateFetch(s, t, a, k, store);
    var th := s.threads[k];
    assert Protected(th) && Holds(th, th.n);
    if (th.FirstEmpty? || th.Asleep?) && store in th.late {
      assert LateStore(s, th.m, th.n, th.g, store);
      LateStoreKept(s, t, a, th, store);
    }
  }

  lemma LateFetch(s: State, t: nat, a: Act, k: nat, store: nat)
    requires Enabled(s, t, a)
    requires var s' := Do(s, t, a);
             k in s'.threads && (s'.threads[k].FirstEmpty? || s'.threads[k].Asleep?) && store in s'.threads[k].late
    ensures k in s.threads && (s.threads[k].FirstEmpty? || s.threads[k].Asleep?)
    ensures var th, th' := s.threads[k], Do(s, t, a).threads[k];
            && th'.m == th.m && th'.n == th.n && th'.g == th.g
            && (store in th.late || (a.Commit? && store == t && t in s.threads && s.threads[t].m == th.m &&
                                     t in Do(s, t, a).threads && Do(s, t, a).threads[t] == Committed(th.m)))
  {
    hide Holders, StrongCount;
    if k != t { OtherThreads(s, t, a, k); }
  }

  lemma StepKeepsInv(s: State, t: nat, a: Act)
    requires Inv(s) && Enabled(s, t, a)
    ensures Inv(Do(s, t, a))
  {
    StepNotifierStays(s, t, a);
    StepNotesKnown(s, t, a);
    StepLockKept(s, t, a);
    StepWaiters(s, t, a);
    StepGenerations(s, t, a);
    StepLateStores(s, t, a);
  }

  lemma {:induction false} AlwaysInv(run: Run)
    requires Possible(run)
    ensures Inv(After(run))
  {
    hide Inv, Do;
    if run.Then? {
      AlwaysInv(run.earlier);
      StepKeepsInv(After(run.earlier), run.t, run.a);
    } else {
      InitInv();
    }
  }

  lemma InitInv()
    ensures Inv(INIT)
  {
  }

  // ---- What it means -----------------------------------------------------------

  // No lost wakeup. In every reachable state, for a fetch past its empty
  // drain and a store to its mailbox committed since: once that store has
  // finished, the fetch's wait predicate is false, and if it sleeps it has
  // been notified; until then the store is on its way to the fetch's notifier.
  lemma NoLostWakeup(run: Run, t: nat, store: nat)
    requires Possible(run)
    requires var s := After(run);
             t in s.threads && (s.threads[t].FirstEmpty? || s.threads[t].Asleep?) && store in s.threads[t].late
    ensures var s := After(run);
            var th := s.threads[t];
            && store in s.threads && th.n in s.notes
            && (s.threads[store] in {Bumped(th.m, th.n), StoreDone} ==>
                  s.notes[th.n].generation != th.g && (th.Asleep? ==> th.woken))
            && (s.threads[store].Committed? ==> th.m in s.notifiers && s.notifiers[th.m] == th.n)
            && (s.threads[store].Found? ==> s.threads[store].n == th.n)
            && (s.threads[store].Bumped? || s.threads[store].StoreDone? || s.threads[store].Committed? || s.threads[store].Found?)
  {
    hide Do, Enabled, Sleepers, Holders;
    AlwaysInv(run);
    var s := After(run);
    var th := s.threads[t];
    assert Protected(th) && Holds(th, th.n);
    assert LateStore(s, th.m, th.n, th.g, store);
  }

  // [late] misses no store: a commit is noted by every fetch of the mailbox
  // that has seen it empty, and stays noted while the fetch waits.
  lemma CommitsAreNoted(s: State, t: nat, a: Act, k: nat)
    requires Enabled(s, t, a) && k in s.threads && (s.threads[k].FirstEmpty? || s.threads[k].Asleep?)
    ensures var th' := Do(s, t, a).threads[k];
            || th'.Second?
            || ((th'.FirstEmpty? || th'.Asleep?) && th'.m == s.threads[k].m && th'.late ==
                 s.threads[k].late + if a.Commit? && s.threads[t].m == s.threads[k].m then {t} else {})
  {
    hide Holders, StrongCount;
    OtherStays(s, t, a, k);
    if k != t { OtherThreads(s, t, a, k); }
  }

  // A fetch that has been notified of such a store leaves its sleep at its
  // very next step, for the second drain.
  lemma WokenForGood(run: Run, t: nat, store: nat, timedOut: bool)
    requires Possible(run)
    requires var s := After(run);
             && t in s.threads && s.threads[t].Asleep? && store in s.threads[t].late
             && store in s.threads && s.threads[store].StoreDone?
    ensures var s := After(run);
            Enabled(s, t, Resume(timedOut)) && Do(s, t, Resume(timedOut)).threads[t] == Second(s.threads[t].m, s.threads[t].n)
  {
    NoLostWakeup(run, t, store);
  }

  // From taking its notifier to the end of its own prune, a fetch has that
  // notifier in the map, so no store can miss it.
  lemma NotifierKept(run: Run, t: nat)
    requires Possible(run) && t in After(run).threads && Protected(After(run).threads[t])
    ensures var s := After(run);
            s.threads[t].m in s.notifiers && s.notifiers[s.threads[t].m] == s.threads[t].n
  {
    AlwaysInv(run);
  }

  lemma WaitersCountSleepers(run: Run, n: nat)
    requires Possible(run) && n in After(run).notes
    ensures After(run).notes[n].waiters == |Sleepers(After(run), n)|
  {
    AlwaysInv(run);
  }
}
