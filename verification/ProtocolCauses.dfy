/** Why things happen in the run/stop protocol, and what goes on when nothing makes them happen. */
module ProtocolCauses {
  import opened VcpuProtocol
  import opened ProtocolSafety
  import opened ProtocolShutdown

  /** The state in which action k of a run is taken. */
  function StateAt(s: State, acts: seq<Action>, k: nat): State
    requires Legal(s, acts) && k <= |acts|
    decreases k
  {
    if k == 0 then s else StateAt(Next(s, acts[0]), acts[1..], k - 1)
  }

  // ----- Reports and panics -----

  /** Action k of the run ends a guest run of thread i that way. */
  predicate GuestEnds(s: State, acts: seq<Action>, k: nat, i: nat, guest: GuestResult)
    requires Legal(s, acts)
  {
    && k < |acts| && acts[k] == ThreadStep(i, guest)
    && i < |StateAt(s, acts, k).threads| && StateAt(s, acts, k).threads[i].pc == GuestRun
  }

  lemma GuestEndsLater(s: State, acts: seq<Action>, k: nat, i: nat, guest: GuestResult)
    requires acts != [] && Legal(s, acts) && GuestEnds(Next(s, acts[0]), acts[1..], k, i, guest)
    ensures GuestEnds(s, acts, k + 1, i, guest)
  {
    hide Next;
  }

  /** Thread i has reported or is about to. */
  predicate Reporting(s: State, i: nat) {
    i in s.sent || (i < |s.threads| && s.threads[i].pc == SendError)
  }

  lemma ReportBegins(s: State, a: Action, i: nat)
    requires SpawnOrder(s) && Enabled(s, a) && !Reporting(s, i) && Reporting(Next(s, a), i)
    ensures a == ThreadStep(i, Failure) && i < |s.threads| && s.threads[i].pc == GuestRun
  {
    if a.ThreadStep? {
      ThreadTouchesChannel(s, a.i, a.guest);
      OtherThreadsStay(s, a.i, a.guest, i);
    } else if a.MonitorStep? {
      MonitorTouchesThreads(s);
    } else {
      EnvironmentEffect(s, a);
      EnvironmentSendsNothing(s, a);
    }
  }

  lemma OtherThreadsStay(s: State, i: nat, guest: GuestResult, j: nat)
    requires Enabled(s, ThreadStep(i, guest))
    ensures var s1 := ThreadNext(s, i, guest);
            |s1.threads| == |s.threads| && (j < |s.threads| && j != i ==> s1.threads[j] == s.threads[j])
  {
  }

  lemma EnvironmentSendsNothing(s: State, a: Action)
    requires Enabled(s, a) && !a.System()
    ensures Next(s, a).sent == s.sent
  {
  }

  lemma {:induction false} ReportHasCause(s: State, acts: seq<Action>, i: nat) returns (k: nat)
    requires Inv(s) && Legal(s, acts) && !Reporting(s, i) && Reporting(Run(s, acts), i)
    ensures GuestEnds(s, acts, k, i, Failure)
    decreases |acts|
  {
    hide Reporting, Next, Inv;
    var s1 := Next(s, acts[0]);
    if Reporting(s1, i) {
      InvGivesSpawnOrder(s);
      ReportBegins(s, acts[0], i);
      k := 0;
    } else {
      NextInv(s, acts[0]);
      k := ReportHasCause(s1, acts[1..], i);
      GuestEndsLater(s, acts, k, i, Failure);
      k := k + 1;
    }
  }

  lemma InvGivesSpawnOrder(s: State)
    requires Inv(s)
    ensures SpawnOrder(s)
  {
  }

  /** A thread reports an error only if one of its guest runs failed: nothing else a guest run does is an error. */
  lemma OnlyFailuresAreReported(n: nat, acts: seq<Action>, i: nat)
    requires Legal(Init(n), acts) && i in Run(Init(n), acts).sent
    ensures exists k: nat :: GuestEnds(Init(n), acts, k, i, Failure)
  {
    InitInv(n);
    var k := ReportHasCause(Init(n), acts, i);
  }

  predicate HasPanicked(s: State, i: nat) {
    i < |s.threads| && s.threads[i].panicked
  }

  lemma PanicBegins(s: State, a: Action, i: nat)
    requires Enabled(s, a) && !HasPanicked(s, i) && HasPanicked(Next(s, a), i)
    ensures a == ThreadStep(i, Panic) && i < |s.threads| && s.threads[i].pc == GuestRun
  {
    if a.ThreadStep? {
      OtherThreadsStay(s, a.i, a.guest, i);
      if a.guest != Panic {
        ThreadKeepsPanics(s, a.i, a.guest);
      }
    } else if a.MonitorStep? {
      MonitorKeepsPanics(s);
    }
  }

  lemma {:induction false} PanicHasCause(s: State, acts: seq<Action>, i: nat) returns (k: nat)
    requires Legal(s, acts) && !HasPanicked(s, i) && HasPanicked(Run(s, acts), i)
    ensures GuestEnds(s, acts, k, i, Panic)
    decreases |acts|
  {
    hide HasPanicked, Next;
    var s1 := Next(s, acts[0]);
    if HasPanicked(s1, i) {
      PanicBegins(s, acts[0], i);
      k := 0;
    } else {
      k := PanicHasCause(s1, acts[1..], i);
      GuestEndsLater(s, acts, k, i, Panic);
      k := k + 1;
    }
  }

  /** A thread counts as panicked only if one of its guest runs panicked. */
  lemma OnlyPanicsPanic(n: nat, acts: seq<Action>, i: nat)
    requires Legal(Init(n), acts) && HasPanicked(Run(Init(n), acts), i)
    ensures exists k: nat :: GuestEnds(Init(n), acts, k, i, Panic)
  {
    var k := PanicHasCause(Init(n), acts, i);
  }

  // ----- Nothing happens without a cause -----

  /** No guest run fails or panics, and nobody stops the machine. */
  predicate Peaceful(acts: seq<Action>) {
    forall a :: a in acts ==> Harmless(a)
  }

  predicate Harmless(a: Action) {
    a.MonitorStep? || a.Request? || (a.ThreadStep? && a.guest == Fine)
  }

  /** The machine is up: no flag has moved, nothing is reported, and every thread is in its loop or not yet spawned. */
  predicate Calm(s: State) {
    && s.running && !s.error && s.errors == [] && s.stopper == Idle
    && (s.monitor.Spawning? || s.monitor in {PollErrors, PollErrorFlag, PollRunning, Sleeping})
    && forall i :: 0 <= i < |s.threads| ==>
         s.threads[i].pc in {NotSpawned, LoadRunning, LoadError, TryRecv, GuestRun} && Stop !in s.threads[i].inbox
  }

  lemma CalmStays(s: State, a: Action)
    requires Calm(s) && Enabled(s, a) && Harmless(a)
    ensures Calm(Next(s, a))
  {
    hide SomePanicked, AllExited;
  }

  lemma {:induction false} PeacefulRunIsCalm(s: State, acts: seq<Action>)
    requires Calm(s) && Legal(s, acts) && Peaceful(acts)
    ensures Calm(Run(s, acts))
    decreases |acts|
  {
    hide Calm, Next;
    if acts == [] {
    } else {
      CalmStays(s, acts[0]);
      PeacefulRunIsCalm(Next(s, acts[0]), acts[1..]);
    }
  }

  /**
   As long as guest runs return without failing and nobody stops the machine, it runs: neither
   flag moves, no thread leaves, and the monitor stays in its poll loop, whatever is requested.
   */
  lemma MachineStaysUp(n: nat, acts: seq<Action>)
    requires Legal(Init(n), acts) && Peaceful(acts)
    ensures var s := Run(Init(n), acts);
            && s.running && !s.error && s.sent == [] && !Ended(s) && s.monitor != Joining
            && forall i :: 0 <= i < |s.threads| ==> s.threads[i].pc != Exited
  {
    PeacefulRunIsCalm(Init(n), acts);
    InitInv(n);
    RunInv(Init(n), acts);
    CalmHasNoReports(Run(Init(n), acts));
  }

  lemma CalmHasNoReports(s: State)
    requires Calm(s) && Inv(s)
    ensures s.sent == []
  {
  }

  // ----- A thread that is left alone goes on -----

  /** Only thread i steps, and its guest runs return without failing. */
  predicate OnlyThread(acts: seq<Action>, i: nat) {
    forall a :: a in acts ==> a == ThreadStep(i, Fine)
  }

  lemma StepOfThread(s: State, i: nat, rest: seq<Action>) returns (acts: seq<Action>)
    requires Enabled(s, ThreadStep(i, Fine)) && Legal(Next(s, ThreadStep(i, Fine)), rest) && OnlyThread(rest, i)
    ensures OnlyThread(acts, i) && Legal(s, acts) && Run(s, acts) == Run(Next(s, ThreadStep(i, Fine)), rest)
    ensures |acts| == 1 + |rest|
  {
    hide Next;
    acts := [ThreadStep(i, Fine)] + rest;
    StepThen(s, ThreadStep(i, Fine), rest);
  }

  /** How many steps thread i needs to the start of its next guest run: three per pending request, and the way round. */
  function StepsToStart(t: Thread): nat {
    3 * |t.inbox| + match t.pc
                    case LoadRunning => 3
                    case LoadError => 2
                    case TryRecv => 1
                    case GuestRun => 4
                    case _ => 0
  }

  lemma CalmThreadStep(s: State, i: nat)
    requires Calm(s) && i < |s.threads| && s.threads[i].pc != NotSpawned
    ensures Enabled(s, ThreadStep(i, Fine))
    ensures var s1, t := Next(s, ThreadStep(i, Fine)), s.threads[i];
            && Calm(s1) && |s1.threads| == |s.threads| && s1.threads[i].pc != NotSpawned
            && (t.pc == TryRecv && t.inbox == [] ==>
                  s1.threads[i].pc == GuestRun && s1.threads[i].runs == t.runs + 1)
            && (!(t.pc == TryRecv && t.inbox == []) ==>
                  s1.threads[i].runs == t.runs && StepsToStart(s1.threads[i]) < StepsToStart(t))
  {
    CalmStays(s, ThreadStep(i, Fine));
  }

  /**
   After a guest run that returned without failing, as from anywhere else in its loop, a thread
   left alone starts another one, taking three steps for every request that waits for it.
   */
  lemma {:induction false} ThreadRunsAgain(s: State, i: nat) returns (acts: seq<Action>)
    requires Calm(s) && i < |s.threads| && s.threads[i].pc != NotSpawned
    ensures OnlyThread(acts, i) && |acts| <= StepsToStart(s.threads[i]) && Legal(s, acts)
    ensures var s1 := Run(s, acts);
            |s1.threads| == |s.threads| && s1.threads[i].pc == GuestRun && s1.threads[i].runs == s.threads[i].runs + 1
    decreases StepsToStart(s.threads[i])
  {
    hide Calm, Next, Enabled;
    CalmThreadStep(s, i);
    var t, s1 := s.threads[i], Next(s, ThreadStep(i, Fine));
    if t.pc == TryRecv && t.inbox == [] {
      acts := StepOfThread(s, i, []);
    } else {
      var rest := ThreadRunsAgain(s1, i);
      acts := StepOfThread(s, i, rest);
    }
  }

  // ----- Stop -----

  function StepsOf(acts: seq<Action>, i: nat): nat {
    if acts == [] then 0 else (if acts[0].ThreadStep? && acts[0].i == i then 1 else 0) + StepsOf(acts[1..], i)
  }

  lemma {:induction false} ExitedTakesNoStep(s: State, acts: seq<Action>, i: nat)
    requires Inv(s) && Legal(s, acts) && i < |s.threads| && s.threads[i].pc == Exited
    ensures StepsOf(acts, i) == 0
    decreases |acts|
  {
    hide Inv;
    if acts == [] {
    } else {
      var a := acts[0];
      InvGivesSpawnOrder(s);
      NextInv(s, a);
      PcStays(s, a, i);
      ExitedTakesNoStep(Next(s, a), acts[1..], i);
    }
  }

  /** Only its own steps move a thread that has been spawned, and nobody else takes a message from it. */
  lemma PcStays(s: State, a: Action, i: nat)
    requires SpawnOrder(s) && Enabled(s, a) && i < |s.threads| && s.threads[i].pc != NotSpawned
    requires !(a.ThreadStep? && a.i == i)
    ensures |Next(s, a).threads| == |s.threads| && Next(s, a).threads[i].pc == s.threads[i].pc
    ensures s.threads[i].inbox <= Next(s, a).threads[i].inbox
  {
    match a
    case ThreadStep(j, guest) => OtherThreadsStay(s, j, guest, i);
    case MonitorStep => MonitorLeavesThread(s, i);
    case StopperStep => StopperLeavesThread(s, i);
    case Interrupt =>
    case Request(j) => DeliveryLeavesThread(s, j, SnapshotRequest, i);
  }

  lemma DeliveryLeavesThread(s: State, j: nat, m: Message, i: nat)
    requires j < |s.threads| && i < |s.threads|
    ensures var s1 := Deliver(s, j, m);
            && |s1.threads| == |s.threads| && s1.threads[i].pc == s.threads[i].pc
            && s.threads[i].inbox <= s1.threads[i].inbox
  {
  }

  lemma StopperLeavesThread(s: State, i: nat)
    requires i < |s.threads|
    ensures var s1 := StopperNext(s);
            && |s1.threads| == |s.threads| && s1.threads[i].pc == s.threads[i].pc
            && s.threads[i].inbox <= s1.threads[i].inbox
  {
    hide Deliver;
    if s.stopper.Sending? && s.stopper.next < |s.threads| {
      DeliveryLeavesThread(s, s.stopper.next, Stop, i);
    }
  }

  lemma MonitorLeavesThread(s: State, i: nat)
    requires SpawnOrder(s) && Enabled(s, MonitorStep) && i < |s.threads| && s.threads[i].pc != NotSpawned
    ensures var s1 := MonitorNext(s);
            && |s1.threads| == |s.threads| && s1.threads[i].pc == s.threads[i].pc
            && s.threads[i].inbox <= s1.threads[i].inbox
  {
    hide Deliver, SomePanicked, AllExited;
    if s.monitor.TrailingSend? && s.monitor.next < |s.threads| {
      DeliveryLeavesThread(s, s.monitor.next, Stop, i);
    }
  }

  /** A thread that looks at its messages and finds Stop first takes that one step and no more. */
  lemma {:induction false} StopEndsThread(s: State, acts: seq<Action>, i: nat)
    requires Inv(s) && Legal(s, acts) && i < |s.threads|
    requires s.threads[i].pc == TryRecv && s.threads[i].inbox != [] && s.threads[i].inbox[0] == Stop
    ensures StepsOf(acts, i) <= 1
    decreases |acts|
  {
    hide Inv;
    if acts == [] {
    } else {
      var a := acts[0];
      InvGivesSpawnOrder(s);
      NextInv(s, a);
      if a.ThreadStep? && a.i == i {
        ExitedTakesNoStep(Next(s, a), acts[1..], i);
      } else {
        PcStays(s, a, i);
        StopEndsThread(Next(s, a), acts[1..], i);
      }
    }
  }

  // ----- A failure is reported -----

  /** What thread i still owes after a failed guest run: a report, and then the error flag. */
  predicate Owes(s: State, i: nat, n: nat) {
    && i < |s.threads|
    && ((n == 2 && s.threads[i].pc == SendError)
        || (n == 1 && s.threads[i].pc == StoreError && i in s.sent)
        || (n == 0 && s.threads[i].pc == Exited && i in s.sent && s.error))
  }

  lemma OwesLess(s: State, a: Action, i: nat, n: nat)
    requires SpawnOrder(s) && Enabled(s, a) && Owes(s, i, n)
    ensures if a.ThreadStep? && a.i == i then n > 0 && Owes(Next(s, a), i, n - 1) else Owes(Next(s, a), i, n)
  {
    hide SomePanicked, AllExited;
    if !(a.ThreadStep? && a.i == i) {
      PcStays(s, a, i);
      SentStays(s, a, i);
    }
  }

  lemma SentStays(s: State, a: Action, i: nat)
    requires SpawnOrder(s) && Enabled(s, a)
    ensures i in s.sent ==> i in Next(s, a).sent
    ensures s.error ==> Next(s, a).error
  {
    if a.ThreadStep? {
      ThreadTouchesChannel(s, a.i, a.guest);
    } else if a.MonitorStep? {
      MonitorTouchesThreads(s);
    } else {
      EnvironmentSendsNothing(s, a);
    }
    StepOnlyLowersFlags(s, a);
  }

  lemma {:induction false} DebtIsPaid(s: State, acts: seq<Action>, i: nat, n: nat)
    requires Inv(s) && Legal(s, acts) && Owes(s, i, n)
    ensures StepsOf(acts, i) <= n && Owes(Run(s, acts), i, n - StepsOf(acts, i))
    decreases |acts|
  {
    hide Inv, Next, Owes;
    if acts == [] {
    } else {
      var a := acts[0];
      InvGivesSpawnOrder(s);
      OwesLess(s, a, i, n);
      NextInv(s, a);
      DebtIsPaid(Next(s, a), acts[1..], i, if a.ThreadStep? && a.i == i then n - 1 else n);
    }
  }

  /**
   A guest run that fails is reported.  Whatever else happens, the thread takes at most two more
   steps: after the first its report has been sent, after the second the error flag is up too and it is gone.
   */
  lemma FailureIsReported(s: State, acts: seq<Action>, i: nat)
    requires Reachable(s) && i < |s.threads| && s.threads[i].pc == GuestRun
    requires acts != [] && acts[0] == ThreadStep(i, Failure) && Legal(s, acts)
    ensures StepsOf(acts, i) <= 3
    ensures var s1 := Run(s, acts);
            && |s1.threads| == |s.threads|
            && (StepsOf(acts, i) >= 2 ==> i in s1.sent)
            && (StepsOf(acts, i) == 3 ==> s1.error && s1.threads[i].pc == Exited)
  {
    ReachableInv(s);
    NextInv(s, acts[0]);
    DebtIsPaid(Next(s, acts[0]), acts[1..], i, 2);
    FlagsOnlyFall(s, acts);
  }

  /** A request waits behind the messages that are already there. */
  lemma RequestIsQueued(s: State, i: nat)
    requires i < |s.threads|
    ensures Legal(s, [Request(i)])
    ensures var s1 := Run(s, [Request(i)]);
            s1 == s.(threads := s.threads[i := s.threads[i].(inbox := s.threads[i].inbox + [SnapshotRequest])])
  {
    OneStep(s, Request(i));
  }

  /** A call of `stop`, left alone from its first message on. */
  lemma {:induction false} StopSends(s: State, k: nat) returns (acts: seq<Action>)
    requires s.stopper == Sending(k) && k <= |s.threads|
    ensures Legal(s, acts)
    ensures var s1 := Run(s, acts);
            && s1 == s.(threads := s1.threads, stopper := Idle) && |s1.threads| == |s.threads|
            && forall i :: 0 <= i < |s.threads| ==>
                 s1.threads[i] == s.threads[i].(inbox := s.threads[i].inbox + (if i < k then [] else [Stop]))
    decreases |s.threads| - k
  {
    var s1 := Next(s, StopperStep);
    if k == |s.threads| {
      acts := [StopperStep];
      OneStep(s, StopperStep);
    } else {
      var rest := StopSends(s1, k + 1);
      acts := [StopperStep] + rest;
      StepThen(s, StopperStep, rest);
    }
  }

  /**
   A whole call of `stop` on a running machine lowers the running flag and puts one Stop at the end of every
   thread's messages; on a machine that is not running it does nothing.
   */
  lemma StopReachesEveryone(s: State) returns (acts: seq<Action>)
    requires s.stopper == Idle
    ensures Legal(s, acts)
    ensures var s1 := Run(s, acts);
            if s.running then
              && s1 == s.(running := false, cleared := true, threads := s1.threads) && |s1.threads| == |s.threads|
              && forall i :: 0 <= i < |s.threads| ==>
                   s1.threads[i] == s.threads[i].(inbox := s.threads[i].inbox + [Stop])
            else s1 == s
  {
    var s1 := Next(s, StopperStep);
    if s.running {
      var s2 := Next(s1, StopperStep);
      var rest := StopSends(s2, 0);
      StepThen(s1, StopperStep, rest);
      StepThen(s, StopperStep, [StopperStep] + rest);
      acts := [StopperStep] + ([StopperStep] + rest);
    } else {
      acts := [StopperStep];
      OneStep(s, StopperStep);
    }
  }

  // ----- The poll loop -----

  function MonitorSteps(n: nat): (acts: seq<Action>)
    ensures |acts| == n && Unaided(acts)
  {
    if n == 0 then [] else [MonitorStep] + MonitorSteps(n - 1)
  }

  /** How many steps of its own the monitor takes from the top of its loop until it joins, or is back at the top. */
  function PollSteps(s: State): nat {
    if s.errors != [] then 2 else if s.error then 3 else if !s.running then 3 else 4
  }

  /**
   One turn of the poll loop, undisturbed: a waiting report, or else a raised error flag, makes
   the monitor lower the running flag and join; a running flag already down makes it join; and
   with none of these it is back where it was, with nothing changed.
   */
  lemma PollTurn(s: State)
    requires s.monitor == PollErrors
    ensures Legal(s, MonitorSteps(PollSteps(s)))
    ensures Run(s, MonitorSteps(PollSteps(s)))
         == if s.errors != [] then s.(errors := s.errors[1..], running := false, monitor := Joining)
            else if s.error || !s.running then s.(running := false, monitor := Joining)
            else s
  {
    hide Legal, Run, SomePanicked, AllExited;
    var s1 := MonitorNext(s);
    var s2 := MonitorNext(s1);
    NothingLeft(s2);
    StepThen(s1, MonitorStep, []);
    StepThen(s, MonitorStep, MonitorSteps(1));
    if s.errors == [] {
      var s3 := MonitorNext(s2);
      NothingLeft(s3);
      StepThen(s2, MonitorStep, []);
      StepThen(s1, MonitorStep, MonitorSteps(1));
      StepThen(s, MonitorStep, MonitorSteps(2));
      if !s.error && s.running {
        NothingLeft(MonitorNext(s3));
        StepThen(s3, MonitorStep, []);
        StepThen(s2, MonitorStep, MonitorSteps(1));
        StepThen(s1, MonitorStep, MonitorSteps(2));
        StepThen(s, MonitorStep, MonitorSteps(3));
      }
    }
  }

  lemma NothingLeft(s: State)
    ensures Legal(s, []) && Run(s, []) == s
  {
  }
}
