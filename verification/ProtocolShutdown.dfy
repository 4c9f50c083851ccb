/** What still happens in the run/stop protocol once a flag is down. */
module ProtocolShutdown {
  import opened VcpuProtocol
  import opened ProtocolSafety

  predicate Down(s: State) {
    !s.running || s.error
  }

  // ----- Bounded work -----

  /**
   Guest runs thread t may still start.  It must have passed the flag loads that would have
   stopped it, and have no message waiting.
   */
  function MayStart(s: State, t: Thread): nat {
    if t.inbox == [] && (t.pc == TryRecv || (t.pc == LoadError && !s.error)) then 1 else 0
  }

  /** From s to s1, thread i started no guest run it was not already committed to. */
  predicate WorkBounded(s: State, s1: State, i: nat)
    requires i < |s.threads| && |s1.threads| == |s.threads|
  {
    var t, t1 := s.threads[i], s1.threads[i];
    t.runs <= t1.runs && t1.runs + MayStart(s1, t1) <= t.runs + MayStart(s, t)
  }

  lemma ThreadStepBoundsWork(s: State, j: nat, guest: GuestResult, i: nat)
    requires Enabled(s, ThreadStep(j, guest)) && Down(s) && i < |s.threads|
    ensures WorkBounded(s, ThreadNext(s, j, guest), i)
  {
    if i != j {
      assert ThreadNext(s, j, guest).threads[i] == s.threads[i];
    }
  }

  lemma MonitorStepBoundsWork(s: State, i: nat)
    requires Enabled(s, MonitorStep) && i < |s.threads| && SpawnOrder(s)
    ensures WorkBounded(s, MonitorNext(s), i)
  {
  }

  lemma StepBoundsWork(s: State, a: Action, i: nat)
    requires Enabled(s, a) && Down(s) && SpawnOrder(s) && i < |s.threads|
    ensures Down(Next(s, a)) && |Next(s, a).threads| == |s.threads| && WorkBounded(s, Next(s, a), i)
  {
    StepOnlyLowersFlags(s, a);
    match a
    case ThreadStep(j, guest) => ThreadStepBoundsWork(s, j, guest, i);
    case MonitorStep => MonitorStepBoundsWork(s, i);
    case _ =>
  }

  lemma {:induction false} RunBoundsWork(s: State, acts: seq<Action>, i: nat)
    requires Inv(s) && Down(s) && Legal(s, acts) && i < |s.threads|
    ensures |Run(s, acts).threads| == |s.threads|
    ensures WorkBounded(s, Run(s, acts), i)
    decreases |acts|
  {
    if acts == [] {
    } else {
      StepBoundsWork(s, acts[0], i);
      NextInv(s, acts[0]);
      RunBoundsWork(Next(s, acts[0]), acts[1..], i);
    }
  }

  /**
   Once a flag is down, each thread starts at most one more guest run in any continuation.  It
   starts none unless its inbox is empty and it was already past the load of the running flag;
   if the error flag is up, unless it was past that load too.
   */
  lemma WorkAfterStop(s: State, acts: seq<Action>, i: nat)
    requires Reachable(s) && Down(s) && Legal(s, acts) && i < |s.threads|
    ensures |Run(s, acts).threads| == |s.threads|
    ensures var more := Run(s, acts).threads[i].runs - s.threads[i].runs;
            && 0 <= more <= 1
            && (more == 1 ==> s.threads[i].inbox == [] && s.threads[i].pc in {LoadError, TryRecv})
            && (more == 1 && s.error ==> s.threads[i].pc == TryRecv)
  {
    ReachableInv(s);
    RunBoundsWork(s, acts, i);
  }

  /** The bound is met: a committed thread can run ahead of everyone else and start its run. */
  lemma CommittedThreadStarts(s: State, i: nat) returns (acts: seq<Action>)
    requires i < |s.threads| && MayStart(s, s.threads[i]) == 1
    ensures Legal(s, acts)
    ensures |Run(s, acts).threads| == |s.threads| && Run(s, acts).threads[i].runs == s.threads[i].runs + 1
  {
    var step := ThreadStep(i, Fine);
    var s1 := Next(s, step);
    if s.threads[i].pc == TryRecv {
      acts := [step];
      OneStep(s, step);
    } else {
      acts := [step, step];
      assert acts[1..] == [step];
      OneStep(s1, step);
    }
  }

  lemma OneStep(s: State, a: Action)
    requires Enabled(s, a)
    ensures Legal(s, [a]) && Run(s, [a]) == Next(s, a)
  {
    assert [a][1..] == [];
  }

  // ----- Termination -----

  /** Steps thread t may still take, given the flags. */
  function ThreadRank(running: bool, error: bool, t: Thread): nat {
    match t.pc
    case NotSpawned => 2
    case LoadRunning => if running then 2 else 1
    case LoadError => if error then 1 else 5
    case TryRecv => 4
    case GuestRun => 3
    case SendError => 2
    case StoreError => 1
    case Exited => 0
  }

  function ThreadRanks(running: bool, error: bool, ts: seq<Thread>): nat {
    if ts == [] then 0 else ThreadRank(running, error, ts[0]) + ThreadRanks(running, error, ts[1..])
  }

  /** Steps the monitor may still take. */
  function MonitorRank(s: State): nat {
    match s.monitor
    case Spawning(k) => 8 + (if k <= |s.threads| then |s.threads| - k else 0)
    case PollRunning => if s.running then 7 else 3
    case Sleeping => 6
    case PollErrors => 5
    case PollErrorFlag => 4
    case StoreAfterMessage => 3
    case StoreAfterFlag => 3
    case Joining => 2
    case TrailingLoad => 1
    case TrailingStore => 0
    case TrailingSend(_) => 0
    case Returned => 0
    case Unwound => 0
  }

  function Rank(s: State): nat {
    ThreadRanks(s.running, s.error, s.threads) + MonitorRank(s)
  }

  lemma {:induction false} RanksAfterUpdate(running: bool, error: bool, ts: seq<Thread>, i: nat, t: Thread)
    requires i < |ts|
    ensures ThreadRanks(running, error, ts[i := t])
         == ThreadRanks(running, error, ts) - ThreadRank(running, error, ts[i]) + ThreadRank(running, error, t)
  {
    if i == 0 {
      assert ts[i := t][1..] == ts[1..];
    } else {
      assert ts[i := t][1..] == ts[1..][i - 1 := t];
      RanksAfterUpdate(running, error, ts[1..], i - 1, t);
    }
  }

  /** Lowering the running flag, or raising the error flag, leaves no thread more to do once a flag is down. */
  lemma {:induction false} RanksAfterFlags(running: bool, error: bool, running': bool, error': bool, ts: seq<Thread>)
    requires running' ==> running
    requires error ==> error'
    ensures ThreadRanks(running', error', ts) <= ThreadRanks(running, error, ts)
  {
    if ts == [] {
    } else {
      RanksAfterFlags(running, error, running', error', ts[1..]);
    }
  }

  lemma {:induction false} RanksBounded(running: bool, error: bool, ts: seq<Thread>)
    ensures ThreadRanks(running, error, ts) <= 5 * |ts|
  {
    if ts == [] {
    } else {
      RanksBounded(running, error, ts[1..]);
    }
  }

  /** A thread step changes one thread, for the better, and never the running flag. */
  lemma ThreadStepEffect(s: State, i: nat, guest: GuestResult)
    requires Down(s) && Enabled(s, ThreadStep(i, guest))
    ensures var s1 := ThreadNext(s, i, guest);
            && |s1.threads| == |s.threads| && s1.threads == s.threads[i := s1.threads[i]]
            && s1.running == s.running && (s.error ==> s1.error) && s1.monitor == s.monitor
            && ThreadRank(s.running, s.error, s1.threads[i]) < ThreadRank(s.running, s.error, s.threads[i])
  {
  }

  lemma ThreadStepDescends(s: State, i: nat, guest: GuestResult)
    requires Down(s) && Enabled(s, ThreadStep(i, guest))
    ensures Rank(Next(s, ThreadStep(i, guest))) < Rank(s)
  {
    var s1 := Next(s, ThreadStep(i, guest));
    ThreadStepEffect(s, i, guest);
    RanksAfterUpdate(s.running, s.error, s.threads, i, s1.threads[i]);
    RanksAfterFlags(s.running, s.error, s1.running, s1.error, s1.threads);
  }

  lemma SpawnStepDescends(s: State)
    requires SpawnOrder(s) && s.monitor.Spawning? && s.monitor.next < |s.threads|
    ensures Rank(MonitorNext(s)) < Rank(s)
  {
    var k := s.monitor.next;
    RanksAfterUpdate(s.running, s.error, s.threads, k, s.threads[k].(pc := LoadRunning));
  }

  lemma PollStepDescends(s: State)
    requires MonitorKnows(s) && Down(s) && Enabled(s, MonitorStep)
    requires s.monitor.Spawning? ==> s.monitor.next >= |s.threads|
    ensures Rank(MonitorNext(s)) < Rank(s)
  {
    var s1 := MonitorNext(s);
    assert s1.threads == s.threads && (s1.running ==> s.running) && s1.error == s.error;
    assert MonitorRank(s1) < MonitorRank(s);
    RanksAfterFlags(s.running, s.error, s1.running, s1.error, s1.threads);
  }

  lemma MonitorStepDescends(s: State)
    requires SpawnOrder(s) && MonitorKnows(s) && Down(s) && Enabled(s, MonitorStep)
    ensures Rank(Next(s, MonitorStep)) < Rank(s)
  {
    if s.monitor.Spawning? && s.monitor.next < |s.threads| {
      SpawnStepDescends(s);
    } else {
      PollStepDescends(s);
    }
  }

  lemma EnvironmentStepKeepsRank(s: State, a: Action)
    requires Down(s) && Enabled(s, a) && !a.System()
    ensures Rank(Next(s, a)) <= Rank(s)
  {
    var s1 := Next(s, a);
    EnvironmentEffect(s, a);
    SamePcsSameRanks(s1.running, s1.error, s.threads, s1.threads);
    RanksAfterFlags(s.running, s.error, s1.running, s1.error, s.threads);
  }

  lemma {:induction false} SamePcsSameRanks(r: bool, e: bool, ts: seq<Thread>, us: seq<Thread>)
    requires |ts| == |us|
    requires forall i :: 0 <= i < |ts| ==> ts[i].pc == us[i].pc
    ensures ThreadRanks(r, e, ts) == ThreadRanks(r, e, us)
  {
    if ts == [] {
    } else {
      SamePcsSameRanks(r, e, ts[1..], us[1..]);
    }
  }

  /** The system is left to itself: no step is one of the environment. */
  predicate Unaided(acts: seq<Action>) {
    forall a :: a in acts ==> a.System()
  }

  function SystemSteps(acts: seq<Action>): nat {
    if acts == [] then 0 else (if acts[0].System() then 1 else 0) + SystemSteps(acts[1..])
  }

  /**
   Once a flag is down, the vCPU threads and the monitor take at most 8 * (N + 1) more steps
   between them, whatever messages are pending or still arrive and however the steps interleave.
   */
  lemma ShutdownIsBounded(s: State, acts: seq<Action>)
    requires Reachable(s) && Down(s) && Legal(s, acts)
    ensures SystemSteps(acts) <= 8 * (|s.threads| + 1)
  {
    ReachableInv(s);
    RankPaysForSteps(s, acts);
    RanksBounded(s.running, s.error, s.threads);
  }

  lemma {:induction false} RankPaysForSteps(s: State, acts: seq<Action>)
    requires Inv(s) && Down(s) && Legal(s, acts)
    ensures Rank(Run(s, acts)) + SystemSteps(acts) <= Rank(s)
    decreases |acts|
  {
    if acts == [] {
    } else {
      var a := acts[0];
      if a.ThreadStep? {
        ThreadStepDescends(s, a.i, a.guest);
      } else if a.MonitorStep? {
        MonitorStepDescends(s);
      } else {
        EnvironmentStepKeepsRank(s, a);
      }
      NextInv(s, a);
      StepOnlyLowersFlags(s, a);
      RankPaysForSteps(Next(s, a), acts[1..]);
    }
  }

  /** The action is the return of a guest run, which is up to the guest. */
  predicate GuestReturn(s: State, a: Action) {
    a.ThreadStep? && a.i < |s.threads| && s.threads[a.i].pc == GuestRun
  }

  /** Nothing is left to do but wait for guest runs: the monitor joins, and every thread still there runs its guest. */
  predicate WaitsForGuests(s: State) {
    && s.monitor == Joining && !AllExited(s)
    && forall i :: 0 <= i < |s.threads| ==> s.threads[i].pc in {GuestRun, Exited}
  }

  /**
   Until `run` is over, some vCPU thread or the monitor can take a step.  That step is the
   return of a guest run only when there is nothing else to wait for.
   */
  lemma NeverStuck(s: State) returns (a: Action)
    requires Inv(s) && !Ended(s)
    ensures a.System() && Enabled(s, a)
    ensures GuestReturn(s, a) ==> WaitsForGuests(s)
    ensures a.ThreadStep? ==> a.guest == Fine
  {
    if i :| 0 <= i < |s.threads| && s.threads[i].pc !in {NotSpawned, Exited, GuestRun} {
      a := ThreadStep(i, Fine);
    } else if Enabled(s, MonitorStep) {
      a := MonitorStep;
    } else {
      var i :| 0 <= i < |s.threads| && s.threads[i].pc != Exited;
      a := ThreadStep(i, Fine);
    }
  }

  /** The system waits for guests exactly when the return of a guest run is the only step it can take. */
  lemma WaitsForGuestsExactly(s: State)
    requires Inv(s) && !Ended(s)
    ensures WaitsForGuests(s) <==> forall a: Action :: a.System() && Enabled(s, a) ==> GuestReturn(s, a)
  {
    var a := NeverStuck(s);
  }

  /**
   From every reachable state with a flag down, if guest runs return, the system on its own
   reaches the end of `run`; without a further panic `run` returns unless a thread panicked before.
   */
  lemma ShutdownCompletes(s: State) returns (acts: seq<Action>)
    requires Reachable(s) && Down(s)
    ensures Legal(s, acts) && Unaided(acts)
    ensures var s1 := Run(s, acts);
            s1.monitor == (if SomePanicked(s) then Unwound else Returned) && AllExited(s1) && !s1.running
  {
    ReachableInv(s);
    acts := RunToEnd(s);
    RunInv(s, acts);
  }

  lemma {:induction false} RunToEnd(s: State) returns (acts: seq<Action>)
    requires Inv(s) && Down(s)
    ensures Legal(s, acts) && Unaided(acts)
    ensures Ended(Run(s, acts)) && (SomePanicked(Run(s, acts)) <==> SomePanicked(s))
    decreases Rank(s)
  {
    if Ended(s) {
      acts := [];
    } else {
      var a := NeverStuck(s);
      SystemStepDescends(s, a);
      FineStepKeepsPanics(s, a);
      var rest := RunToEnd(Next(s, a));
      acts := [a] + rest;
      assert acts[1..] == rest;
    }
  }

  /** A system step other than a panic leaves it as it was who has panicked. */
  lemma FineStepKeepsPanics(s: State, a: Action)
    requires Enabled(s, a) && a.System() && (a.ThreadStep? ==> a.guest != Panic)
    ensures SomePanicked(Next(s, a)) <==> SomePanicked(s)
  {
    if a.ThreadStep? {
      ThreadKeepsPanics(s, a.i, a.guest);
      SamePanics(s, ThreadNext(s, a.i, a.guest));
    } else {
      MonitorKeepsPanics(s);
      SamePanics(s, MonitorNext(s));
    }
  }

  lemma ThreadKeepsPanics(s: State, i: nat, guest: GuestResult)
    requires Enabled(s, ThreadStep(i, guest)) && guest != Panic
    ensures var s1 := ThreadNext(s, i, guest);
            && |s1.threads| == |s.threads|
            && forall j :: 0 <= j < |s.threads| ==> s1.threads[j].panicked == s.threads[j].panicked
  {
  }

  lemma MonitorKeepsPanics(s: State)
    requires Enabled(s, MonitorStep)
    ensures var s1 := MonitorNext(s);
            && |s1.threads| == |s.threads|
            && forall j :: 0 <= j < |s.threads| ==> s1.threads[j].panicked == s.threads[j].panicked
  {
    hide SomePanicked, AllExited;
  }

  lemma SystemStepDescends(s: State, a: Action)
    requires Inv(s) && Down(s) && a.System() && Enabled(s, a)
    ensures Inv(Next(s, a)) && Down(Next(s, a)) && Rank(Next(s, a)) < Rank(s)
  {
    if a.ThreadStep? {
      ThreadStepDescends(s, a.i, a.guest);
    } else {
      MonitorStepDescends(s);
    }
    NextInv(s, a);
    StepOnlyLowersFlags(s, a);
  }

  /** No step of the run is the return of a guest run. */
  predicate WithoutGuests(s: State, acts: seq<Action>)
    requires Legal(s, acts)
    decreases |acts|
  {
    acts == [] || (!GuestReturn(s, acts[0]) && WithoutGuests(Next(s, acts[0]), acts[1..]))
  }

  /**
   Even if no guest run ever returns, from every reachable state with a flag down the system
   reaches the end of `run`, or the state where it waits for guest runs only.
   */
  lemma ShutdownOnlyWaitsForGuests(s: State) returns (acts: seq<Action>)
    requires Reachable(s) && Down(s)
    ensures Legal(s, acts) && WithoutGuests(s, acts) && Unaided(acts)
    ensures Ended(Run(s, acts)) || WaitsForGuests(Run(s, acts))
  {
    ReachableInv(s);
    acts := RunToWait(s);
  }

  lemma {:induction false} RunToWait(s: State) returns (acts: seq<Action>)
    requires Inv(s) && Down(s)
    ensures Legal(s, acts) && WithoutGuests(s, acts) && Unaided(acts)
    ensures Ended(Run(s, acts)) || WaitsForGuests(Run(s, acts))
    decreases Rank(s)
  {
    if Ended(s) || WaitsForGuests(s) {
      acts := [];
    } else {
      var a := NeverStuck(s);
      SystemStepDescends(s, a);
      var rest := RunToWait(Next(s, a));
      acts := [a] + rest;
      assert acts[1..] == rest;
    }
  }

  // ----- When nothing is left to bring a flag down -----

  /** Every thread is gone and neither flag is down: the monitor has nothing left to wait for, and does not know. */
  predicate Abandoned(s: State) {
    AllExited(s) && !Down(s)
  }

  /** That happens exactly when every thread panicked before a flag came down. */
  lemma AbandonedExactly(s: State)
    requires Reachable(s)
    ensures Abandoned(s) <==> !Down(s) && forall i :: 0 <= i < |s.threads| ==> s.threads[i].panicked
  {
    ReachableInv(s);
  }

  lemma AbandonedStays(s: State, a: Action)
    requires Inv(s) && Abandoned(s) && a.System() && Enabled(s, a)
    ensures Abandoned(Next(s, a)) && !Ended(Next(s, a))
  {
    AbandonedHearsNothing(s);
  }

  /** No report is left for the monitor to find. */
  lemma AbandonedHearsNothing(s: State)
    requires Inv(s) && Abandoned(s)
    ensures s.sent == [] && s.errors == []
  {
    if s.sent != [] {
      ReportRaisesFlag(s);
    }
  }

  /** Once every thread is gone, a report has been followed by the error flag. */
  lemma ReportRaisesFlag(s: State)
    requires ReportersLeave(s) && AllExited(s) && s.sent != []
    ensures s.error
  {
    assert s.sent[0] in s.sent;
  }

  lemma {:induction false} AbandonedForever(s: State, acts: seq<Action>)
    requires Inv(s) && Abandoned(s) && Legal(s, acts) && Unaided(acts)
    ensures Abandoned(Run(s, acts)) && !Ended(Run(s, acts))
    decreases |acts|
  {
    if acts == [] {
    } else {
      AbandonedStays(s, acts[0]);
      NextInv(s, acts[0]);
      AbandonedForever(Next(s, acts[0]), acts[1..]);
    }
  }

  /**
   Once every thread is gone, the system on its own can reach the end of `run` if and only if a
   flag is down.  Threads that all panicked leave `run` polling for ever.
   */
  lemma RunEndsExactly(s: State)
    requires Reachable(s) && AllExited(s)
    ensures (exists acts :: Unaided(acts) && Legal(s, acts) && Ended(Run(s, acts))) <==> Down(s)
  {
    ReachableInv(s);
    if Down(s) {
      var acts := ShutdownCompletes(s);
    } else {
      forall acts | Unaided(acts) && Legal(s, acts)
        ensures !Ended(Run(s, acts))
      {
        AbandonedForever(s, acts);
      }
    }
  }

  /** One vCPU whose first guest run panics. */
  const PANICKING: seq<Action> :=
    [MonitorStep, MonitorStep, ThreadStep(0, Fine), ThreadStep(0, Fine), ThreadStep(0, Fine), ThreadStep(0, Panic)]

  lemma SinglePanicAbandons()
    ensures Legal(Init(1), PANICKING) && Abandoned(Run(Init(1), PANICKING))
  {
    var t := Thread(LoadRunning, [], 0, false);
    var s := State(true, false, [t], [], [], false, PollErrors, Idle);
    assert Next(Next(Init(1), MonitorStep), MonitorStep) == s;
    var rest := PANICKING[2..];
    assert PANICKING[1..][1..] == rest;
    ThreadPanics(s, t);
  }

  /** A thread alone at the top of its loop can run straight into a panic. */
  lemma ThreadPanics(s: State, t: Thread)
    requires s.threads == [t] && t == Thread(LoadRunning, [], 0, false) && !Down(s)
    ensures var acts := [ThreadStep(0, Fine), ThreadStep(0, Fine), ThreadStep(0, Fine), ThreadStep(0, Panic)];
            && Legal(s, acts)
            && Run(s, acts) == s.(threads := [t.(pc := Exited, runs := 1, panicked := true)])
  {
    hide AllExited, SomePanicked, Legal, Run;
    var turn, panic := ThreadStep(0, Fine), ThreadStep(0, Panic);
    var s1, s2 := s.(threads := [t.(pc := LoadError)]), s.(threads := [t.(pc := TryRecv)]);
    var s3 := s.(threads := [t.(pc := GuestRun, runs := 1)]);
    assert Next(s, turn) == s1 && Next(s1, turn) == s2 && Next(s2, turn) == s3;
    OneStep(s3, panic);
    StepThen(s2, turn, [panic]);
    StepThen(s1, turn, [turn] + [panic]);
    StepThen(s, turn, [turn] + ([turn] + [panic]));
    assert [turn] + ([turn] + ([turn] + [panic])) == [turn, turn, turn, panic];
  }

  lemma StepThen(s: State, a: Action, rest: seq<Action>)
    requires Enabled(s, a) && Legal(Next(s, a), rest)
    ensures Legal(s, [a] + rest) && Run(s, [a] + rest) == Run(Next(s, a), rest)
  {
    hide Next, Enabled;
    assert ([a] + rest)[1..] == rest;
  }
}
