/** What holds in every reachable state of the run/stop protocol, for any number of vCPUs. */
module ProtocolSafety {
  import opened VcpuProtocol

  // ----- The invariant -----

  /** Threads are spawned in order, and all of them before the poll loop starts. */
  predicate SpawnOrder(s: State) {
    && (s.monitor.Spawning? ==> s.monitor.next <= |s.threads|)
    && forall i :: 0 <= i < |s.threads| ==>
         (s.threads[i].pc == NotSpawned <==> s.monitor.Spawning? && s.monitor.next <= i)
  }

  predicate NoDuplicates(xs: seq<nat>) {
    forall i, j :: 0 <= i < j < |xs| ==> xs[i] != xs[j]
  }

  /** A thread that has reported is about to raise the flag or has raised it and left. */
  predicate ReportersLeave(s: State) {
    && (forall i :: i in s.sent ==> i < |s.threads| && s.threads[i].pc in {StoreError, Exited})
    && (forall i :: i in s.sent && s.threads[i].pc == Exited ==> s.error)
    && (forall i :: 0 <= i < |s.threads| && s.threads[i].pc == StoreError ==> i in s.sent)
    && (s.error ==> s.sent != [])
  }

  /** The monitor takes at most one message off the channel, and then leaves its loop. */
  predicate ChannelMatchesHistory(s: State) {
    || s.errors == s.sent
    || (s.sent != [] && s.errors == s.sent[1..] && s.monitor !in {PollErrors, PollErrorFlag, PollRunning, Sleeping}
        && !s.monitor.Spawning?)
  }

  /** Stop messages are only queued once the running flag is down. */
  predicate StopMeansDown(s: State) {
    && (s.stopper.Sending? ==> !s.running)
    && (forall i :: 0 <= i < |s.threads| && Stop in s.threads[i].inbox ==> !s.running)
  }

  /** What each point of the monitor knows.  The trailing `stop` finds the flag down and sends nothing. */
  predicate MonitorKnows(s: State) {
    && (s.monitor in {Joining, TrailingLoad, Returned, Unwound} ==> !s.running)
    && (s.monitor in {TrailingLoad, Returned} ==> AllExited(s) && !SomePanicked(s))
    && (s.monitor == Unwound ==> AllExited(s) && SomePanicked(s))
    && (s.monitor == StoreAfterFlag ==> s.error)
    && (s.monitor == StoreAfterMessage ==> s.sent != [])
    && !s.monitor.TrailingStore? && !s.monitor.TrailingSend?
  }

  /** No thread leaves and no flag falls without a cause, and only a thread that is gone has panicked. */
  predicate CausesRecorded(s: State) {
    && (forall i :: 0 <= i < |s.threads| && s.threads[i].pc == Exited ==>
          !s.running || s.error || s.threads[i].panicked)
    && (forall i :: 0 <= i < |s.threads| && s.threads[i].panicked ==> s.threads[i].pc == Exited)
    && (!s.running ==> s.cleared || s.sent != [])
  }

  predicate Inv(s: State) {
    && SpawnOrder(s)
    && ReportersLeave(s)
    && NoDuplicates(s.sent)
    && ChannelMatchesHistory(s)
    && StopMeansDown(s)
    && MonitorKnows(s)
    && CausesRecorded(s)
  }

  lemma InitInv(n: nat)
    ensures Inv(Init(n))
  {
  }

  lemma ThreadKeepsSpawnOrder(s: State, i: nat, guest: GuestResult)
    requires SpawnOrder(s) && Enabled(s, ThreadStep(i, guest))
    ensures SpawnOrder(ThreadNext(s, i, guest))
  {
    hide SomePanicked, AllExited;
  }

  lemma ThreadKeepsReportersLeave(s: State, i: nat, guest: GuestResult)
    requires ReportersLeave(s) && Enabled(s, ThreadStep(i, guest))
    ensures ReportersLeave(ThreadNext(s, i, guest))
  {
    hide SomePanicked, AllExited;
    if s.threads[i].pc == SendError {
      ReportKeepsReportersLeave(s, i, guest);
    } else {
      assert ThreadNext(s, i, guest).sent == s.sent;
    }
  }

  lemma ReportKeepsReportersLeave(s: State, i: nat, guest: GuestResult)
    requires ReportersLeave(s) && Enabled(s, ThreadStep(i, guest)) && s.threads[i].pc == SendError
    ensures ReportersLeave(ThreadNext(s, i, guest))
  {
    hide SomePanicked, AllExited;
    var s1 := ThreadNext(s, i, guest);
    assert forall j :: j in s1.sent <==> j in s.sent || j == i;
    assert forall j :: 0 <= j < |s.threads| && j != i ==> s1.threads[j] == s.threads[j];
  }

  lemma ThreadReportsOnce(s: State, i: nat, guest: GuestResult)
    requires ReportersLeave(s) && NoDuplicates(s.sent) && Enabled(s, ThreadStep(i, guest))
    ensures NoDuplicates(ThreadNext(s, i, guest).sent)
  {
    hide SomePanicked, AllExited;
  }

  /** A thread step leaves the monitor where it is, and adds to the channel only when it reports. */
  lemma ThreadTouchesChannel(s: State, i: nat, guest: GuestResult)
    requires Enabled(s, ThreadStep(i, guest))
    ensures var s1 := ThreadNext(s, i, guest);
            && s1.monitor == s.monitor
            && (s.threads[i].pc == SendError ==> s1.errors == s.errors + [i] && s1.sent == s.sent + [i])
            && (s.threads[i].pc != SendError ==> s1.errors == s.errors && s1.sent == s.sent)
  {
    hide SomePanicked, AllExited;
  }

  lemma ThreadKeepsChannelMatchesHistory(s: State, i: nat, guest: GuestResult)
    requires ChannelMatchesHistory(s) && Enabled(s, ThreadStep(i, guest))
    ensures ChannelMatchesHistory(ThreadNext(s, i, guest))
  {
    hide ThreadNext, SomePanicked, AllExited;
    ThreadTouchesChannel(s, i, guest);
    if s.sent != [] {
      assert (s.sent + [i])[1..] == s.sent[1..] + [i];
    }
  }

  lemma ThreadKeepsStopMeansDown(s: State, i: nat, guest: GuestResult)
    requires StopMeansDown(s) && Enabled(s, ThreadStep(i, guest))
    ensures StopMeansDown(ThreadNext(s, i, guest))
  {
    hide SomePanicked, AllExited;
  }

  lemma ThreadKeepsMonitorKnows(s: State, i: nat, guest: GuestResult)
    requires MonitorKnows(s) && Enabled(s, ThreadStep(i, guest))
    ensures MonitorKnows(ThreadNext(s, i, guest))
  {
  }

  lemma ThreadKeepsCausesRecorded(s: State, i: nat, guest: GuestResult)
    requires CausesRecorded(s) && StopMeansDown(s) && Enabled(s, ThreadStep(i, guest))
    ensures CausesRecorded(ThreadNext(s, i, guest))
  {
    hide SomePanicked, AllExited;
  }

  lemma MonitorKeepsSpawnOrder(s: State)
    requires SpawnOrder(s) && Enabled(s, MonitorStep)
    ensures SpawnOrder(MonitorNext(s))
  {
    hide SomePanicked, AllExited;
  }

  /** A monitor step spawns the next thread or leaves the threads alone. */
  lemma MonitorTouchesThreads(s: State)
    requires SpawnOrder(s) && Enabled(s, MonitorStep)
    ensures var s1 := MonitorNext(s);
            && s1.sent == s.sent && s1.error == s.error && |s1.threads| == |s.threads|
            && forall i :: 0 <= i < |s.threads| ==>
                 || s1.threads[i].pc == s.threads[i].pc
                 || (s.threads[i].pc == NotSpawned && s1.threads[i].pc == LoadRunning)
  {
    hide SomePanicked, AllExited;
  }

  lemma MonitorKeepsReportersLeave(s: State)
    requires SpawnOrder(s) && ReportersLeave(s) && Enabled(s, MonitorStep)
    ensures ReportersLeave(MonitorNext(s))
  {
    hide MonitorNext, SpawnOrder;
    MonitorTouchesThreads(s);
  }

  lemma MonitorKeepsChannelMatchesHistory(s: State)
    requires ChannelMatchesHistory(s) && MonitorKnows(s) && Enabled(s, MonitorStep)
    ensures ChannelMatchesHistory(MonitorNext(s))
  {
    hide SomePanicked, AllExited;
  }

  lemma MonitorKeepsStopMeansDown(s: State)
    requires StopMeansDown(s) && MonitorKnows(s) && Enabled(s, MonitorStep)
    ensures StopMeansDown(MonitorNext(s))
  {
    hide SomePanicked, AllExited;
  }

  lemma MonitorKeepsMonitorKnows(s: State)
    requires MonitorKnows(s) && ChannelMatchesHistory(s) && Enabled(s, MonitorStep)
    ensures MonitorKnows(MonitorNext(s))
  {
  }

  lemma MonitorKeepsCausesRecorded(s: State)
    requires CausesRecorded(s) && SpawnOrder(s) && ReportersLeave(s) && MonitorKnows(s) && Enabled(s, MonitorStep)
    ensures CausesRecorded(MonitorNext(s))
  {
    hide SomePanicked, AllExited;
  }

  lemma DeliverInv(s: State, i: nat, m: Message)
    requires Inv(s) && i < |s.threads|
    requires m == Stop ==> !s.running
    ensures Inv(Deliver(s, i, m))
  {
    SamePanics(s, Deliver(s, i, m));
  }

  lemma SamePanics(s: State, s1: State)
    requires |s1.threads| == |s.threads|
    requires forall i :: 0 <= i < |s.threads| ==> s1.threads[i].panicked == s.threads[i].panicked
    ensures SomePanicked(s1) <==> SomePanicked(s)
  {
  }

  lemma StopperInv(s: State)
    requires Inv(s)
    ensures Inv(StopperNext(s))
  {
    if s.stopper.Sending? && s.stopper.next < |s.threads| {
      DeliverInv(s, s.stopper.next, Stop);
      SameThreadsInv(Deliver(s, s.stopper.next, Stop), StopperNext(s));
    } else {
      SameThreadsInv(s, StopperNext(s));
    }
  }

  /** Lowering the running flag on behalf of someone outside, or moving that someone on, keeps the invariant. */
  lemma SameThreadsInv(s: State, s1: State)
    requires Inv(s)
    requires s1 == s.(running := s1.running, cleared := s1.cleared, stopper := s1.stopper)
    requires s1.running == s.running || (!s1.running && s1.cleared)
    requires s.cleared ==> s1.cleared
    requires s1.stopper.Sending? ==> !s1.running
    ensures Inv(s1)
  {
    hide NoDuplicates;
    SamePanics(s, s1);
  }

  lemma NextInv(s: State, a: Action)
    requires Inv(s) && Enabled(s, a)
    ensures Inv(Next(s, a))
  {
    match a
    case ThreadStep(i, guest) =>
      ThreadKeepsSpawnOrder(s, i, guest);
      ThreadKeepsReportersLeave(s, i, guest);
      ThreadReportsOnce(s, i, guest);
      ThreadKeepsChannelMatchesHistory(s, i, guest);
      ThreadKeepsStopMeansDown(s, i, guest);
      ThreadKeepsMonitorKnows(s, i, guest);
      ThreadKeepsCausesRecorded(s, i, guest);
    case MonitorStep =>
      MonitorKeepsSpawnOrder(s);
      MonitorKeepsReportersLeave(s);
      MonitorKeepsChannelMatchesHistory(s);
      MonitorKeepsStopMeansDown(s);
      MonitorKeepsMonitorKnows(s);
      MonitorKeepsCausesRecorded(s);
    case StopperStep => StopperInv(s);
    case Interrupt => SameThreadsInv(s, Next(s, Interrupt));
    case Request(i) => DeliverInv(s, i, SnapshotRequest);
  }

  lemma {:induction false} RunInv(s: State, acts: seq<Action>)
    requires Inv(s) && Legal(s, acts)
    ensures Inv(Run(s, acts))
    decreases |acts|
  {
    if acts == [] {
    } else {
      NextInv(s, acts[0]);
      RunInv(Next(s, acts[0]), acts[1..]);
    }
  }

  // ----- Safety over whole runs -----

  ghost predicate Reachable(s: State) {
    exists n: nat, acts :: Legal(Init(n), acts) && Run(Init(n), acts) == s
  }

  lemma ReachableInv(s: State)
    requires Reachable(s)
    ensures Inv(s)
  {
    var n: nat, acts :| Legal(Init(n), acts) && Run(Init(n), acts) == s;
    InitInv(n);
    RunInv(Init(n), acts);
  }

  /**
   For any number of vCPUs and any interleaving: the error flag is only up once a message was
   sent; no thread sends two; a queued Stop means the running flag is down; the flag only falls
   because someone stopped the machine or a thread failed; a thread leaves before a flag falls
   only by panicking; the trailing `stop` never gets past its first load; and when `run` is over
   every thread is gone and the machine is not running, and it was over by a panic exactly when
   a thread panicked.
   */
  lemma RunIsSafe(n: nat, acts: seq<Action>)
    requires Legal(Init(n), acts)
    ensures var s := Run(Init(n), acts);
            && (s.error ==> s.sent != [])
            && NoDuplicates(s.sent)
            && (forall i :: 0 <= i < |s.threads| && Stop in s.threads[i].inbox ==> !s.running)
            && (!s.running ==> s.cleared || s.sent != [])
            && (forall i :: 0 <= i < |s.threads| && s.threads[i].pc == Exited ==>
                  !s.running || s.error || s.threads[i].panicked)
            && !s.monitor.TrailingStore? && !s.monitor.TrailingSend?
            && (Ended(s) ==> AllExited(s) && !s.running && (s.monitor == Unwound <==> SomePanicked(s)))
  {
    InitInv(n);
    RunInv(Init(n), acts);
  }

  lemma StepOnlyLowersFlags(s: State, a: Action)
    requires Enabled(s, a)
    ensures var s1 := Next(s, a);
            (s1.running ==> s.running) && (s.error ==> s1.error) && |s1.threads| == |s.threads|
  {
    if !a.System() {
      EnvironmentEffect(s, a);
    }
  }

  /** The environment can lower the running flag and add messages; nothing else. */
  lemma EnvironmentEffect(s: State, a: Action)
    requires Enabled(s, a) && !a.System()
    ensures var s1 := Next(s, a);
            && (s1.running ==> s.running) && s1.error == s.error && s1.monitor == s.monitor
            && |s1.threads| == |s.threads|
            && (forall i :: 0 <= i < |s.threads| ==>
                  s1.threads[i].pc == s.threads[i].pc && s1.threads[i].runs == s.threads[i].runs)
  {
  }

  /** Within a run neither flag ever comes back, and no vCPU is added or removed. */
  lemma {:induction false} FlagsOnlyFall(s: State, acts: seq<Action>)
    requires Legal(s, acts)
    ensures var s1 := Run(s, acts);
            (s1.running ==> s.running) && (s.error ==> s1.error) && |s1.threads| == |s.threads|
    decreases |acts|
  {
    if acts == [] {
    } else {
      StepOnlyLowersFlags(s, acts[0]);
      FlagsOnlyFall(Next(s, acts[0]), acts[1..]);
    }
  }
}
