/**
 vm.rs, `run` and `stop`: the vCPU threads, the monitor loop on the main thread, and whoever
 else may stop the machine, as one transition system whose steps are the atomic accesses.
 */
module VcpuProtocol {

  datatype Message = Stop | SnapshotRequest

  /** Where a vCPU thread stands in its loop.  The two flag loads of the loop guard are separate steps. */
  datatype ThreadPc =
    | NotSpawned
    | LoadRunning
    | LoadError
    | TryRecv
    | GuestRun
    | SendError
    | StoreError
    | Exited

  /** How a guest run and the handling of its exit end.  A panic ends the thread on the spot. */
  datatype GuestResult = Fine | Failure | Panic

  /** runs counts the guest runs the thread has started; panicked tells a thread that panicked from one that left. */
  datatype Thread = Thread(pc: ThreadPc, inbox: seq<Message>, runs: nat, panicked: bool)

  datatype MonitorPc =
    | Spawning(next: nat)
    | PollErrors
    | StoreAfterMessage
    | PollErrorFlag
    | StoreAfterFlag
    | PollRunning
    | Sleeping
    | Joining
    | TrailingLoad
    | TrailingStore
    | TrailingSend(next: nat)
    | Returned
    | Unwound

  /** Another caller of `stop`, any number of times in a row. */
  datatype StopperPc = Idle | MustStore | Sending(next: nat)

  /**
   errors is the channel from the threads to the monitor; sent records every thread that ever
   put a message there, in order; cleared records that someone other than the monitor cleared
   the running flag.
   */
  datatype State = State(
    running: bool,
    error: bool,
    threads: seq<Thread>,
    errors: seq<nat>,
    sent: seq<nat>,
    cleared: bool,
    monitor: MonitorPc,
    stopper: StopperPc)

  /** Steps of the system, and steps of its environment. */
  datatype Action =
    | ThreadStep(i: nat, guest: GuestResult)
    | MonitorStep
    | StopperStep
    | Interrupt
    | Request(i: nat)
  {
    predicate System() {
      ThreadStep? || MonitorStep?
    }
  }

  /** The state in which `run` enters the thread scope, for n vCPUs. */
  function Init(n: nat): State {
    State(true, false, seq(n, i => Thread(NotSpawned, [], 0, false)), [], [], false, Spawning(0), Idle)
  }

  predicate AllExited(s: State) {
    forall i :: 0 <= i < |s.threads| ==> s.threads[i].pc == Exited
  }

  predicate SomePanicked(s: State) {
    exists i :: 0 <= i < |s.threads| && s.threads[i].panicked
  }

  /** `run` is over: it has returned, or the thread scope has passed on the panic of a thread. */
  predicate Ended(s: State) {
    s.monitor == Returned || s.monitor == Unwound
  }

  predicate Enabled(s: State, a: Action) {
    match a
    case ThreadStep(i, _) => i < |s.threads| && s.threads[i].pc != NotSpawned && s.threads[i].pc != Exited
    case MonitorStep => !Ended(s) && (s.monitor == Joining ==> AllExited(s))
    case StopperStep => true
    case Interrupt => true
    case Request(i) => i < |s.threads|
  }

  function SetThread(s: State, i: nat, t: Thread): State
    requires i < |s.threads|
  {
    s.(threads := s.threads[i := t])
  }

  function Deliver(s: State, i: nat, m: Message): State
    requires i < |s.threads|
  {
    SetThread(s, i, s.threads[i].(inbox := s.threads[i].inbox + [m]))
  }

  /** One step of vCPU thread i; guest is the outcome of a guest run that returns in this step. */
  function ThreadNext(s: State, i: nat, guest: GuestResult): State
    requires Enabled(s, ThreadStep(i, guest))
  {
    var t := s.threads[i];
    match t.pc
    case LoadRunning => SetThread(s, i, t.(pc := if s.running then LoadError else Exited))
    case LoadError => SetThread(s, i, t.(pc := if s.error then Exited else TryRecv))
    case TryRecv =>
      if t.inbox == [] then SetThread(s, i, t.(pc := GuestRun, runs := t.runs + 1))
      else SetThread(s, i, t.(pc := if t.inbox[0] == Stop then Exited else LoadRunning, inbox := t.inbox[1..]))
    case GuestRun =>
      (match guest
       case Fine => SetThread(s, i, t.(pc := LoadRunning))
       case Failure => SetThread(s, i, t.(pc := SendError))
       case Panic => SetThread(s, i, t.(pc := Exited, panicked := true)))
    case SendError => SetThread(s, i, t.(pc := StoreError)).(errors := s.errors + [i], sent := s.sent + [i])
    case StoreError => SetThread(s, i, t.(pc := Exited)).(error := true)
  }

  /**
   One step of the main thread: spawning, the poll loop, the implicit join, which panics if a
   thread did, and the trailing `stop`.
   */
  function MonitorNext(s: State): State
    requires Enabled(s, MonitorStep)
  {
    match s.monitor
    case Spawning(k) =>
      if k < |s.threads| then SetThread(s, k, s.threads[k].(pc := LoadRunning)).(monitor := Spawning(k + 1))
      else s.(monitor := PollErrors)
    case PollErrors =>
      if s.errors != [] then s.(errors := s.errors[1..], monitor := StoreAfterMessage)
      else s.(monitor := PollErrorFlag)
    case StoreAfterMessage => s.(running := false, monitor := Joining)
    case PollErrorFlag => s.(monitor := if s.error then StoreAfterFlag else PollRunning)
    case StoreAfterFlag => s.(running := false, monitor := Joining)
    case PollRunning => s.(monitor := if s.running then Sleeping else Joining)
    case Sleeping => s.(monitor := PollErrors)
    case Joining => s.(monitor := if SomePanicked(s) then Unwound else TrailingLoad)
    case TrailingLoad => s.(monitor := if s.running then TrailingStore else Returned)
    case TrailingStore => s.(running := false, monitor := TrailingSend(0))
    case TrailingSend(k) =>
      if k < |s.threads| then Deliver(s, k, Stop).(monitor := TrailingSend(k + 1))
      else s.(monitor := Returned)
  }

  /** One step of a concurrent call of `stop`. */
  function StopperNext(s: State): State {
    match s.stopper
    case Idle => s.(stopper := if s.running then MustStore else Idle)
    case MustStore => s.(running := false, cleared := true, stopper := Sending(0))
    case Sending(k) =>
      if k < |s.threads| then Deliver(s, k, Stop).(stopper := Sending(k + 1)) else s.(stopper := Idle)
  }

  function Next(s: State, a: Action): State
    requires Enabled(s, a)
  {
    match a
    case ThreadStep(i, guest) => ThreadNext(s, i, guest)
    case MonitorStep => MonitorNext(s)
    case StopperStep => StopperNext(s)
    case Interrupt => s.(running := false, cleared := true)
    case Request(i) => Deliver(s, i, SnapshotRequest)
  }

  /** The actions can be taken one after the other from s. */
  predicate Legal(s: State, acts: seq<Action>)
    decreases |acts|
  {
    acts == [] || (Enabled(s, acts[0]) && Legal(Next(s, acts[0]), acts[1..]))
  }

  function Run(s: State, acts: seq<Action>): State
    requires Legal(s, acts)
    decreases |acts|
  {
    if acts == [] then s else Run(Next(s, acts[0]), acts[1..])
  }
}
