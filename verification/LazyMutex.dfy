/** The Windows mutex of Google Test as a protocol: any number of threads call Lock, Unlock and
    AssertHeld, every access to shared memory is a step of its own, and the steps interleave
    freely. A static mutex starts out zeroed and is initialised by whichever thread comes first. */
module LazyMutex {

  /** Zero is not a valid thread identifier. */
  type ThreadId = t: nat | t != 0 witness 1

  datatype MutexType = Static | Dynamic

  datatype Call = Lock | Unlock | AssertHeld

  /** Where a thread is. The Init states are the steps of the thread that won the exchange from
      0 to 1; a thread is Ready when it has left the lazy initialisation. */
  datatype Location =
    | Idle
    | Calling(call: Call)      // about to exchange 0 for 1
    | InitOwner(call: Call)    // about to clear the owner
    | InitAllocate(call: Call) // about to create the critical section
    | InitSection(call: Call)  // about to initialise it
    | InitPublish(call: Call)  // about to exchange 1 for 2, and check
    | Spinning(call: Call)     // waiting for the phase to become 2
    | Ready(call: Call)        // about to do what was called
    | Entered                  // in Lock, critical section entered, owner not yet recorded
    | Leaving                  // in Unlock, owner cleared, critical section not yet left
    | Aborted(failure: Failure)

  datatype Failure = ExchangeFailed | UnexpectedPhase | NotHeld

  /** A thread, the last of its Lock and Unlock calls to return, if any, and how many more calls of
      Lock than of Unlock have returned. */
  datatype Thread = Thread(at: Location, last: LastCall, held: int)

  datatype LastCall = NoCall | Locked | Unlocked

  /** A recursive lock: the holder (0 if none) may enter again and leaves as often. */
  datatype CriticalSection =
    | Missing
    | Raw
    | Section(holder: nat, depth: nat)

  /** `created` counts the critical sections ever created for this mutex. */
  datatype State = State(
    kind: MutexType, phase: int, owner: nat, section: CriticalSection, created: nat, threads: map<ThreadId, Thread>)
  {
    ghost function At(t: ThreadId, l: Location): State
      requires t in threads
    {
      this.(threads := threads[t := threads[t].(at := l)])
    }

    ghost function Returned(t: ThreadId, last: LastCall): State
      requires t in threads
    {
      this.(threads := threads[t := Thread(Idle, last, threads[t].held + if last == Locked then 1 else -1)])
    }

    ghost predicate Holds(t: ThreadId) {
      section.Section? && section.holder == t
    }
  }

  ghost predicate Init(s: State) {
    && s.owner == 0 && s.phase == 0
    && (forall t :: t in s.threads ==> s.threads[t] == Thread(Idle, NoCall, 0))
    && match s.kind
       case Static => s.section == Missing && s.created == 0
       case Dynamic => s.section == Section(0, 0) && s.created == 1
  }

  /** A thread may unlock only what it holds; that is the caller's responsibility. Locking what
      it already holds is allowed only in `nested` runs. */
  ghost predicate MayCall(s: State, t: ThreadId, call: Call, nested: bool) {
    match call
    case Lock => nested || !s.Holds(t)
    case Unlock => s.Holds(t)
    case AssertHeld => true
  }

  /** The step that thread `t` takes next, except for choosing a call and entering the section. */
  ghost function Advance(s: State, t: ThreadId): State
    requires t in s.threads
  {
    match s.threads[t].at
    case Calling(call) =>
      if s.kind == Dynamic then s.At(t, Ready(call))
      else if s.phase == 0 then s.(phase := 1).At(t, InitOwner(call))
      else if s.phase == 1 then s.At(t, Spinning(call))
      else if s.phase == 2 then s.At(t, Ready(call))
      else s.At(t, Aborted(UnexpectedPhase))
    case InitOwner(call) => s.(owner := 0).At(t, InitAllocate(call))
    case InitAllocate(call) => s.(section := Raw, created := s.created + 1).At(t, InitSection(call))
    case InitSection(call) => s.(section := Section(0, 0)).At(t, InitPublish(call))
    case InitPublish(call) =>
      if s.phase == 1 then s.(phase := 2).At(t, Ready(call)) else s.At(t, Aborted(ExchangeFailed))
    case Spinning(call) => if s.phase == 2 then s.At(t, Ready(call)) else s
    case Ready(call) =>
      (match call
       case Lock => s
       case Unlock => s.(owner := 0).At(t, Leaving)
       case AssertHeld => if s.owner == t then s.At(t, Idle) else s.At(t, Aborted(NotHeld)))
    case Entered => s.(owner := t).Returned(t, Locked)
    case Leaving =>
      (match s.section
       case Section(holder, depth) =>
         if depth <= 1 then s.(section := Section(0, 0)).Returned(t, Unlocked)
         else s.(section := Section(holder, depth - 1)).Returned(t, Unlocked)
       case _ => s)
    case Idle => s
    case Aborted(_) => s
  }

  /** EnterCriticalSection succeeds on a free section or for its holder; otherwise it waits. */
  ghost predicate CanEnter(s: State, t: ThreadId) {
    s.section.Section? && (s.section.holder == 0 || s.section.holder == t)
  }

  ghost predicate Step(s: State, t: ThreadId, s': State, nested: bool) {
    && t in s.threads
    && match s.threads[t].at
       case Idle => exists call :: MayCall(s, t, call, nested) && s' == s.At(t, Calling(call))
       case Ready(Lock) =>
         CanEnter(s, t) && s' == s.(section := Section(t, s.section.depth + 1)).At(t, Entered)
       case _ => s' == Advance(s, t)
  }

  ghost predicate Next(s: State, s': State, nested: bool) {
    exists t: ThreadId :: Step(s, t, s', nested)
  }

  ghost predicate IsRun(run: seq<State>, nested: bool) {
    && run != [] && Init(run[0])
    && forall i :: 0 <= i < |run| - 1 ==> Next(run[i], run[i + 1], nested)
  }

  // The invariant.

  ghost predicate Initialising(l: Location) {
    l.InitOwner? || l.InitAllocate? || l.InitSection? || l.InitPublish?
  }

  ghost predicate Started(l: Location) {
    l.Idle? || l.Calling? || l.Spinning? || Initialising(l)
  }

  /** The shared memory as the phase says it should be. */
  ghost predicate PhaseInvariant(s: State) {
    && (s.kind == Dynamic ==> s.phase == 0)
    && s.phase in {0, 1, 2}
    && (s.kind == Static && s.phase < 2 ==> s.owner == 0 && s.section in {Missing, Raw, Section(0, 0)})
    && (s.kind == Static && s.phase == 0 ==> s.section == Missing && s.created == 0)
    && (s.kind == Dynamic || s.phase == 2 ==> s.section.Section? && s.created == 1)
  }

  /** Before the phase is 2, nobody has got past the lazy initialisation; a thread that is
      initialising has got as far as the shared memory says. */
  ghost predicate LazyInitInvariantOf(s: State, t: ThreadId)
    requires t in s.threads
  {
    var at := s.threads[t].at;
    && (s.kind == Static && s.phase < 2 ==>
          Started(at) && s.threads[t].last == NoCall && (!at.Idle? ==> !at.call.Unlock?))
    && (Initialising(at) ==> s.kind == Static && s.phase == 1)
    && (at.InitOwner? || at.InitAllocate? ==> s.section == Missing && s.created == 0)
    && (at.InitSection? ==> s.section == Raw && s.created == 1)
    && (at.InitPublish? ==> s.section == Section(0, 0) && s.created == 1)
    && (at.Spinning? ==> s.kind == Static && s.phase > 0)
  }

  /** One thread is initialising in phase 1, and none otherwise. */
  ghost predicate OneInitialiser(s: State) {
    && (forall t, u :: t in s.threads && u in s.threads ==>
          Initialising(s.threads[t].at) && Initialising(s.threads[u].at) ==> t == u)
    && (s.phase == 1 ==> exists t :: t in s.threads && Initialising(s.threads[t].at))
  }

  /** Who holds the section and who is recorded as owner, as far as thread `t` is concerned. */
  ghost predicate OwnerInvariantOf(s: State, t: ThreadId)
    requires t in s.threads
  {
    var at := s.threads[t].at;
    && (s.owner == t <==> s.threads[t].last == Locked && at != Leaving)
    && (s.threads[t].last == Locked ==> s.Holds(t))
    && s.threads[t].held + (if at.Entered? then 1 else 0) == (if s.Holds(t) then s.section.depth else 0)
    && (at.Entered? || at.Leaving? || at == Calling(Unlock) || at == Ready(Unlock) ==> s.Holds(t))
    && at != Spinning(Unlock)
    && (at.Aborted? ==> at.failure == NotHeld)
  }

  ghost predicate OwnerInvariant(s: State) {
    && (s.section.Section? ==> (s.section.holder == 0 <==> s.section.depth == 0))
    && (s.owner != 0 ==> s.owner in s.threads)
  }

  ghost predicate Inv(s: State) {
    && PhaseInvariant(s) && OneInitialiser(s) && OwnerInvariant(s)
    && forall t :: t in s.threads ==> LazyInitInvariantOf(s, t) && OwnerInvariantOf(s, t)
  }

  lemma StepKeepsThreads(s: State, t: ThreadId, s': State, nested: bool)
    requires Step(s, t, s', nested)
    ensures s'.threads.Keys == s.threads.Keys
    ensures s'.kind == s.kind
    ensures forall u :: u in s.threads && u != t ==> s'.threads[u] == s.threads[u]
  {
  }

  lemma StepKeepsShared(s: State, t: ThreadId, s': State, nested: bool)
    requires PhaseInvariant(s) && OwnerInvariant(s) && Step(s, t, s', nested)
    requires LazyInitInvariantOf(s, t) && OwnerInvariantOf(s, t)
    ensures PhaseInvariant(s') && OwnerInvariant(s')
  {
  }

  lemma StepKeepsOneInitialiser(s: State, t: ThreadId, s': State, nested: bool)
    requires PhaseInvariant(s) && OneInitialiser(s) && Step(s, t, s', nested)
    requires forall u :: u in s.threads ==> LazyInitInvariantOf(s, u)
    ensures OneInitialiser(s')
  {
    if s'.phase == 1 {
      var u :| u in s'.threads && if s.phase == 0 then u == t else Initialising(s.threads[u].at);
      assert Initialising(s'.threads[u].at);
    }
  }

  lemma StepKeepsLazyInitOf(s: State, t: ThreadId, s': State, nested: bool, u: ThreadId)
    requires PhaseInvariant(s) && OneInitialiser(s) && Step(s, t, s', nested) && u in s.threads
    requires LazyInitInvariantOf(s, t) && LazyInitInvariantOf(s, u)
    ensures LazyInitInvariantOf(s', u)
  {
  }

  /** In the lazy initialisation nobody holds the section, and before it nothing is shared. */
  lemma EarlyStepKeepsOwnerOf(s: State, t: ThreadId, s': State, nested: bool, u: ThreadId)
    requires PhaseInvariant(s) && OwnerInvariant(s) && Step(s, t, s', nested) && u in s.threads
    requires LazyInitInvariantOf(s, t) && OwnerInvariantOf(s, t) && OwnerInvariantOf(s, u)
    requires Started(s.threads[t].at) || s.threads[t].at.Aborted?
    ensures OwnerInvariantOf(s', u)
  {
    assert s'.threads[t].held == s.threads[t].held && s'.threads[t].last == s.threads[t].last;
    assert s'.Holds(u) <==> s.Holds(u);
    assert s'.owner == s.owner && (s.Holds(u) ==> s'.section == s.section);
  }

  lemma LockStepKeepsOwnerOf(s: State, t: ThreadId, s': State, nested: bool, u: ThreadId)
    requires PhaseInvariant(s) && OwnerInvariant(s) && Step(s, t, s', nested) && u in s.threads
    requires LazyInitInvariantOf(s, t) && OwnerInvariantOf(s, t) && OwnerInvariantOf(s, u)
    requires s.threads[t].at in {Ready(Lock), Entered}
    ensures OwnerInvariantOf(s', u)
  {
    assert s.threads[t].at == Ready(Lock) ==> s'.owner == s.owner && s'.Holds(t);
  }

  lemma UnlockStepKeepsOwnerOf(s: State, t: ThreadId, s': State, nested: bool, u: ThreadId)
    requires PhaseInvariant(s) && OwnerInvariant(s) && Step(s, t, s', nested) && u in s.threads
    requires LazyInitInvariantOf(s, t) && OwnerInvariantOf(s, t) && OwnerInvariantOf(s, u)
    requires s.threads[t].at in {Ready(Unlock), Leaving}
    ensures OwnerInvariantOf(s', u)
  {
    assert s.Holds(t) && (u != t ==> !s.Holds(u));
  }

  lemma StepKeepsOwnerOf(s: State, t: ThreadId, s': State, nested: bool, u: ThreadId)
    requires PhaseInvariant(s) && OwnerInvariant(s) && Step(s, t, s', nested) && u in s.threads
    requires LazyInitInvariantOf(s, t) && OwnerInvariantOf(s, t) && OwnerInvariantOf(s, u)
    ensures OwnerInvariantOf(s', u)
  {
    match s.threads[t].at
    case Ready(Lock) => LockStepKeepsOwnerOf(s, t, s', nested, u);
    case Entered => LockStepKeepsOwnerOf(s, t, s', nested, u);
    case Ready(Unlock) => UnlockStepKeepsOwnerOf(s, t, s', nested, u);
    case Leaving => UnlockStepKeepsOwnerOf(s, t, s', nested, u);
    case Ready(AssertHeld) => assert s'.section == s.section && s'.owner == s.owner;
    case _ => EarlyStepKeepsOwnerOf(s, t, s', nested, u);
  }

  lemma StepKeepsInv(s: State, s': State, nested: bool)
    requires Inv(s) && Next(s, s', nested)
    ensures Inv(s')
  {
    var t: ThreadId :| Step(s, t, s', nested);
    StepKeepsThreads(s, t, s', nested);
    hide *;
    StepKeepsShared(s, t, s', nested);
    StepKeepsOneInitialiser(s, t, s', nested);
    forall u | u in s'.threads ensures LazyInitInvariantOf(s', u) && OwnerInvariantOf(s', u) {
      StepKeepsLazyInitOf(s, t, s', nested, u);
      StepKeepsOwnerOf(s, t, s', nested, u);
    }
  }

  // What holds in every run.

  lemma {:induction false} RunKeepsInv(run: seq<State>, nested: bool, i: nat)
    requires IsRun(run, nested) && i < |run|
    ensures Inv(run[i])
    decreases i
  {
    if i > 0 {
      RunKeepsInv(run, nested, i - 1);
      assert Next(run[i - 1], run[i], nested);
      StepKeepsInv(run[i - 1], run[i], nested);
    }
  }

  /** Safety: at most one critical section is ever created; no check of the exchange fails; a
      thread that has left the lazy initialisation finds it complete; and the lock excludes. */
  lemma EveryRunIsSafe(run: seq<State>, nested: bool, i: nat)
    requires IsRun(run, nested) && i < |run|
    ensures var s := run[i];
            && s.created <= 1
            && (forall t :: t in s.threads && s.threads[t].at.Aborted? ==> s.threads[t].at.failure == NotHeld)
            && (forall t :: t in s.threads && !Started(s.threads[t].at) ==>
                  s.section.Section? && s.created == 1 && (s.kind == Static ==> s.phase == 2))
            && (forall t, u :: t in s.threads && u in s.threads && t != u ==>
                  !(s.threads[t].held > 0 && s.threads[u].held > 0))
  {
    RunKeepsInv(run, nested, i);
    var s := run[i];
    assert forall t :: t in s.threads ==> LazyInitInvariantOf(s, t) && OwnerInvariantOf(s, t);
    if s.phase == 1 {
      var t :| t in s.threads && Initialising(s.threads[t].at);
    }
  }

  /** The critical section, once created, is never created again nor taken away. */
  lemma SectionStays(s: State, s': State, nested: bool)
    requires Inv(s) && Next(s, s', nested)
    ensures s.created <= s'.created
    ensures s.section.Section? ==> s'.section.Section?
    ensures s.phase <= s'.phase
  {
    var t: ThreadId :| Step(s, t, s', nested);
    assert LazyInitInvariantOf(s, t);
  }

  /** The check in AssertHeld passes exactly if the thread's last Lock or Unlock was a Lock. */
  lemma AssertHeldPassesExactlyAfterLock(run: seq<State>, nested: bool, i: nat, t: ThreadId)
    requires IsRun(run, nested) && i < |run|
    requires t in run[i].threads && run[i].threads[t].at == Ready(AssertHeld)
    ensures !Advance(run[i], t).threads[t].at.Aborted? <==> run[i].threads[t].last == Locked
  {
    RunKeepsInv(run, nested, i);
    assert OwnerInvariantOf(run[i], t);
  }

  // Non-recursive use.

  ghost predicate HoldsOnce(s: State, t: ThreadId)
    requires t in s.threads
  {
    var at := s.threads[t].at;
    s.Holds(t) ==>
      && s.section.depth == 1
      && (s.threads[t].last == Locked <==> !at.Entered?)
      && at != Calling(Lock) && at != Ready(Lock) && at != Spinning(Lock)
  }

  lemma StepKeepsHoldsOnce(s: State, t: ThreadId, s': State, u: ThreadId)
    requires Step(s, t, s', false) && u in s.threads
    requires PhaseInvariant(s) && OwnerInvariant(s)
    requires LazyInitInvariantOf(s, t) && OwnerInvariantOf(s, t) && OwnerInvariantOf(s, u)
    requires HoldsOnce(s, t) && HoldsOnce(s, u)
    ensures HoldsOnce(s', u)
  {
  }

  ghost predicate AllHoldOnce(s: State) {
    forall t :: t in s.threads ==> HoldsOnce(s, t)
  }

  lemma NextKeepsHoldsOnce(s: State, s': State)
    requires Inv(s) && AllHoldOnce(s) && Next(s, s', false)
    ensures AllHoldOnce(s')
  {
    var t: ThreadId :| Step(s, t, s', false);
    StepKeepsThreads(s, t, s', false);
    hide HoldsOnce, PhaseInvariant, OneInitialiser, OwnerInvariant, LazyInitInvariantOf, OwnerInvariantOf;
    assert LazyInitInvariantOf(s, t) && OwnerInvariantOf(s, t);
    forall u | u in s'.threads ensures HoldsOnce(s', u) {
      StepKeepsHoldsOnce(s, t, s', u);
    }
  }

  lemma {:induction false} RunKeepsHoldsOnce(run: seq<State>, i: nat)
    requires IsRun(run, false) && i < |run|
    ensures AllHoldOnce(run[i])
    decreases i
  {
    if i > 0 {
      assert Next(run[i - 1], run[i], false);
      hide Next, AllHoldOnce;
      RunKeepsInv(run, false, i - 1);
      RunKeepsHoldsOnce(run, i - 1);
      NextKeepsHoldsOnce(run[i - 1], run[i]);
    }
  }

  /** Used without nesting, AssertHeld passes exactly for the thread that holds the mutex. */
  lemma AssertHeldPassesExactlyForHolder(run: seq<State>, i: nat, t: ThreadId)
    requires IsRun(run, false) && i < |run|
    requires t in run[i].threads && run[i].threads[t].at == Ready(AssertHeld)
    ensures !Advance(run[i], t).threads[t].at.Aborted? <==> run[i].Holds(t)
  {
    RunKeepsInv(run, false, i);
    assert OwnerInvariantOf(run[i], t);
    RunKeepsHoldsOnce(run, i);
    assert HoldsOnce(run[i], t);
  }

  // With nesting, a holder can fail the check.

  ghost function Last(run: seq<State>): State
    requires run != []
  {
    run[|run| - 1]
  }

  lemma Extend(run: seq<State>, t: ThreadId, s: State, nested: bool)
    requires IsRun(run, nested) && Step(Last(run), t, s, nested)
    ensures IsRun(run + [s], nested)
  {
    var longer := run + [s];
    forall i | 0 <= i < |longer| - 1 ensures Next(longer[i], longer[i + 1], nested) {
      if i < |run| - 1 {
        assert Next(run[i], run[i + 1], nested);
      }
    }
  }

  /** A thread of a dynamic mutex calls something it may call, and gets through the (empty)
      initialisation. */
  lemma CallRuns(run: seq<State>, t: ThreadId, call: Call) returns (run': seq<State>)
    requires IsRun(run, true) && t in Last(run).threads && Last(run).kind == Dynamic
    requires Last(run).threads[t].at == Idle && MayCall(Last(run), t, call, true)
    ensures IsRun(run', true) && Last(run') == Last(run).At(t, Ready(call))
  {
    var s1 := Last(run).At(t, Calling(call));
    Extend(run, t, s1, true);
    var s2 := Last(run).At(t, Ready(call));
    assert s2 == Advance(s1, t);
    Extend(run + [s1], t, s2, true);
    run' := run + [s1] + [s2];
  }

  lemma LockRuns(run: seq<State>, t: ThreadId) returns (run': seq<State>)
    requires IsRun(run, true) && t in Last(run).threads && Last(run).kind == Dynamic
    requires Last(run).threads[t].at == Idle && CanEnter(Last(run), t)
    ensures IsRun(run', true)
    ensures var s := Last(run);
            Last(run') == s.(section := Section(t, s.section.depth + 1), owner := t).Returned(t, Locked)
  {
    var s := Last(run);
    run' := CallRuns(run, t, Lock);
    var s1 := Last(run').(section := Section(t, s.section.depth + 1)).At(t, Entered);
    Extend(run', t, s1, true);
    Extend(run' + [s1], t, Advance(s1, t), true);
    run' := run' + [s1] + [Advance(s1, t)];
    assert Last(run').threads == s.(section := Section(t, s.section.depth + 1), owner := t).Returned(t, Locked).threads;
  }

  lemma UnlockRuns(run: seq<State>, t: ThreadId) returns (run': seq<State>)
    requires IsRun(run, true) && t in Last(run).threads && Last(run).kind == Dynamic
    requires Last(run).threads[t].at == Idle && Last(run).Holds(t) && Last(run).section.depth == 2
    ensures IsRun(run', true)
    ensures Last(run') == Last(run).(section := Section(t, 1), owner := 0).Returned(t, Unlocked)
  {
    run' := CallRuns(run, t, Unlock);
    var s1 := Advance(Last(run'), t);
    Extend(run', t, s1, true);
    Extend(run' + [s1], t, Advance(s1, t), true);
    run' := run' + [s1] + [Advance(s1, t)];
    assert Last(run').threads == Last(run).Returned(t, Unlocked).threads;
  }

  /** Lock, Lock, Unlock, AssertHeld: the thread still holds the mutex, and the check fails. */
  lemma NestedHolderCanFail() returns (run: seq<State>, t: ThreadId)
    ensures IsRun(run, true) && t in Last(run).threads
    ensures Last(run).Holds(t) && Last(run).threads[t].held == 1 && Last(run).threads[t].at == Aborted(NotHeld)
  {
    t := 1;
    var s0 := State(Dynamic, 0, 0, Section(0, 0), 1, map[t := Thread(Idle, NoCall, 0)]);
    run := [s0];
    assert Last(run) == s0;
    run := LockRuns(run, t);
    run := LockRuns(run, t);
    run := UnlockRuns(run, t);
    run := CallRuns(run, t, AssertHeld);
    Extend(run, t, Advance(Last(run), t), true);
    run := run + [Advance(Last(run), t)];
  }

  // Nobody is left behind.

  ghost predicate CanMoveOn(s: State, t: ThreadId, nested: bool)
    requires t in s.threads
  {
    exists s' :: Step(s, t, s', nested) && t in s'.threads && s'.threads[t].at != s.threads[t].at
  }

  /** In every reachable state a thread has a step that takes it on, unless its check has failed,
      it spins while another thread initialises the mutex, or it waits for a section that another
      thread holds. */
  lemma MovesOnExactly(run: seq<State>, nested: bool, i: nat, t: ThreadId)
    requires IsRun(run, nested) && i < |run| && t in run[i].threads
    ensures var s := run[i];
            var at := s.threads[t].at;
            CanMoveOn(s, t, nested)
            <==> && at != Aborted(NotHeld)
                 && !(at.Spinning? && s.phase == 1)
                 && !(at == Ready(Lock) && s.section.Section? && s.section.holder != 0 && s.section.holder != t)
  {
    RunKeepsInv(run, nested, i);
    var s := run[i];
    var at := s.threads[t].at;
    assert LazyInitInvariantOf(s, t) && OwnerInvariantOf(s, t);
    if at.Idle? {
      var s' := s.At(t, Calling(AssertHeld));
      assert MayCall(s, t, AssertHeld, nested) && Step(s, t, s', nested) && s'.threads[t].at != at;
    } else if at == Ready(Lock) {
      if CanEnter(s, t) {
        var s' := s.(section := Section(t, s.section.depth + 1)).At(t, Entered);
        assert Step(s, t, s', nested) && s'.threads[t].at != at;
      }
    } else {
      assert Step(s, t, Advance(s, t), nested);
    }
  }

  /** How many steps the initialising thread is from publishing. */
  ghost function Remaining(l: Location): nat {
    match l
    case InitOwner(_) => 4
    case InitAllocate(_) => 3
    case InitSection(_) => 2
    case InitPublish(_) => 1
    case _ => 0
  }

  /** Whenever a thread spins, the phase is 2 already, or steps of the initialising thread alone
      lead there; and then one step of its own takes it out of the loop, to do what was called. */
  lemma SpinningThreadIsReleased(run: seq<State>, nested: bool, t: ThreadId) returns (run': seq<State>)
    requires IsRun(run, nested) && t in Last(run).threads && Last(run).threads[t].at.Spinning?
    ensures IsRun(run', nested) && run < run' && run'[|run'| - 2].phase == Last(run').phase == 2
    ensures t in run'[|run'| - 2].threads && run'[|run'| - 2].threads[t] == Last(run).threads[t]
    ensures Step(run'[|run'| - 2], t, Last(run'), nested)
    ensures t in Last(run').threads && Last(run').threads[t].at == Ready(Last(run).threads[t].at.call)
  {
    RunKeepsInv(run, nested, |run| - 1);
    assert LazyInitInvariantOf(Last(run), t);
    var run1 := run;
    if Last(run).phase == 1 {
      var u :| u in Last(run).threads && Initialising(Last(run).threads[u].at);
      run1 := InitialiserFinishes(run, nested, t, u);
    }
    var s := Last(run1).At(t, Ready(Last(run).threads[t].at.call));
    Extend(run1, t, s, nested);
    run' := run1 + [s];
  }

  lemma {:induction false} InitialiserFinishes(run: seq<State>, nested: bool, t: ThreadId, u: ThreadId)
    returns (run': seq<State>)
    requires IsRun(run, nested) && Last(run).phase == 1
    requires u in Last(run).threads && Initialising(Last(run).threads[u].at)
    requires t in Last(run).threads && t != u
    ensures IsRun(run', nested) && run <= run'
    ensures Last(run').phase == 2 && t in Last(run').threads && Last(run').threads[t] == Last(run).threads[t]
    decreases Remaining(Last(run).threads[u].at)
  {
    var s := Last(run);
    var s' := Advance(s, u);
    Extend(run, u, s', nested);
    run' := run + [s'];
    if !s.threads[u].at.InitPublish? {
      run' := InitialiserFinishes(run', nested, t, u);
    }
  }
}
