/** The request path of source/cdns.c as a step machine: a main thread and a
    worker share two queues, two mutexes, a condition and a wake-up pipe.  One
    step is one library call or one queue operation. */
module DnsThreads {
  import opened Options

  /** A request carries the number of lookups made for it. */
  datatype Request = Request(id: nat, urgent: bool, lookups: nat)

  datatype Owner = Nobody | Main | Worker

  /** Where the worker stands in start_dns_thread. */
  datatype WorkerAt =
    | Top
    | PendingLocked
    | NothingGot
    | Asleep(signalled: bool)
    | Woken
    | Got(r: Request)
    | Looking(r: Request)
    | Answered(r: Request)
    | FinishedLocked(r: Request)
    | Enqueued
    | ToWrite

  /** Where the main thread stands: `Away` is any code outside cdns.c, at the top
      level or in a callback; then add_to_dns_queue; then check_dns_queue. */
  datatype MainAt =
    | Away
    | WantPending(r: Request)
    | PendingHeld(r: Request)
    | Added
    | Signalled
    | Try
    | FinishedHeld
    | Dequeued(dns: Option<Request>)
    | Released(dns: Option<Request>)

  /** `depth` counts the calls of check_dns_queue that wait for a callback. */
  datatype State = State(
    pending: seq<Request>, pendingLock: Owner,
    finished: seq<Request>, finishedLock: Owner,
    worker: WorkerAt, main: MainAt, depth: nat,
    pipe: nat, capacity: nat,
    submitted: nat, delivered: seq<Request>)

  datatype Step =
    // add_to_dns_queue
    | Submit(urgent: bool) | LockPending | Add | Signal | UnlockPending
    // dns_check and check_dns_queue
    | ReadByte | TryLock | Dequeue | UnlockFinished | Deliver | Return | CallbackReturns
    // the worker
    | WorkerLock | WorkerDequeue | Wait | Spurious | Wake | UnlockWoken
    | UnlockGot | Lookup | LockFinished | Enqueue | WorkerUnlock | WriteByte

  predicate Init(s: State) {
    s == State([], Nobody, [], Nobody, Top, Away, 0, 0, s.capacity, 0, []) && s.capacity >= 1
  }

  predicate Enabled(s: State, step: Step) {
    match step
    case Submit(_) => s.main == Away
    case LockPending => s.main.WantPending? && s.pendingLock == Nobody
    case Add => s.main.PendingHeld?
    case Signal => s.main == Added
    case UnlockPending => s.main == Signalled
    case ReadByte => s.main == Away && s.pipe > 0
    case TryLock => s.main == Try
    case Dequeue => s.main == FinishedHeld
    case UnlockFinished => s.main.Dequeued?
    case Deliver => s.main.Released? && s.main.dns.Some?
    case Return => s.main.Released? && s.main.dns.None?
    case CallbackReturns => s.main == Away && s.depth > 0
    case WorkerLock => s.worker == Top && s.pendingLock == Nobody
    case WorkerDequeue => s.worker == PendingLocked
    case Wait => s.worker == NothingGot
    case Spurious => s.worker == Asleep(false)
    case Wake => s.worker == Asleep(true) && s.pendingLock == Nobody
    case UnlockWoken => s.worker == Woken
    case UnlockGot => s.worker.Got?
    case Lookup => s.worker.Looking?
    case LockFinished => s.worker.Answered? && s.finishedLock == Nobody
    case Enqueue => s.worker.FinishedLocked?
    case WorkerUnlock => s.worker == Enqueued
    case WriteByte => s.worker == ToWrite && s.pipe < s.capacity
  }

  function Do(s: State, step: Step): State
    requires Enabled(s, step)
  {
    match step
    case Submit(urgent) => s.(submitted := s.submitted + 1, main := WantPending(Request(s.submitted, urgent, 0)))
    case LockPending => s.(pendingLock := Main, main := PendingHeld(s.main.r))
    case Add => s.(pending := if s.main.r.urgent then [s.main.r] + s.pending else s.pending + [s.main.r], main := Added)
    case Signal => s.(worker := if s.worker.Asleep? then Asleep(true) else s.worker, main := Signalled)
    case UnlockPending => s.(pendingLock := Nobody, main := Away)
    case ReadByte => s.(pipe := s.pipe - 1, main := Try)
    case TryLock => if s.finishedLock == Nobody then s.(finishedLock := Main, main := FinishedHeld) else s.(main := Away)
    case Dequeue =>
      if s.finished == [] then s.(main := Dequeued(None))
      else s.(finished := s.finished[1..], main := Dequeued(Some(s.finished[0])))
    case UnlockFinished => s.(finishedLock := Nobody, main := Released(s.main.dns))
    case Deliver => s.(delivered := s.delivered + [s.main.dns.value], depth := s.depth + 1, main := Away)
    case Return => s.(main := Away)
    case CallbackReturns => s.(depth := s.depth - 1, main := Try)
    case WorkerLock => s.(pendingLock := Worker, worker := PendingLocked)
    case WorkerDequeue =>
      if s.pending == [] then s.(worker := NothingGot)
      else s.(pending := s.pending[1..], worker := Got(s.pending[0]))
    case Wait => s.(pendingLock := Nobody, worker := Asleep(false))
    case Spurious => s.(worker := Asleep(true))
    case Wake => s.(pendingLock := Worker, worker := Woken)
    case UnlockWoken => s.(pendingLock := Nobody, worker := Top)
    case UnlockGot => s.(pendingLock := Nobody, worker := Looking(s.worker.r))
    case Lookup => s.(worker := Answered(s.worker.r.(lookups := s.worker.r.lookups + 1)))
    case LockFinished => s.(finishedLock := Worker, worker := FinishedLocked(s.worker.r))
    case Enqueue => s.(finished := s.finished + [s.worker.r], worker := Enqueued)
    case WorkerUnlock => s.(finishedLock := Nobody, worker := ToWrite)
    case WriteByte => s.(pipe := s.pipe + 1, worker := Top)
  }

  /** A run is any list of steps, each enabled where it is taken. */
  predicate Legal(s: State, steps: seq<Step>)
    decreases |steps|
  {
    steps == [] || (Enabled(s, steps[0]) && Legal(Do(s, steps[0]), steps[1..]))
  }

  function After(s: State, steps: seq<Step>): State
    requires Legal(s, steps)
    decreases |steps|
  {
    if steps == [] then s else After(Do(s, steps[0]), steps[1..])
  }

  // ---- Where the requests are ---------------------------------------------

  function InHand(m: MainAt): seq<Request> {
    if (m.Dequeued? || m.Released?) && m.dns.Some? then [m.dns.value] else []
  }

  function Coming(m: MainAt): seq<Request> {
    if m.WantPending? || m.PendingHeld? then [m.r] else []
  }

  function AtWorker(w: WorkerAt): seq<Request> {
    if w.Got? || w.Looking? || w.Answered? || w.FinishedLocked? then [w.r] else []
  }

  /** Every accepted request, from the one delivered first to the newest. */
  function Pipeline(s: State): seq<Request> {
    s.delivered + InHand(s.main) + s.finished + AtWorker(s.worker) + s.pending + Coming(s.main)
  }

  // ---- Invariants -----------------------------------------------------------

  predicate Locks(s: State) {
    && (s.pendingLock == Worker <==> s.worker in {PendingLocked, NothingGot, Woken} || s.worker.Got?)
    && (s.pendingLock == Main <==> s.main.PendingHeld? || s.main == Added || s.main == Signalled)
    && (s.finishedLock == Worker <==> s.worker.FinishedLocked? || s.worker == Enqueued)
    && (s.finishedLock == Main <==> s.main == FinishedHeld || s.main.Dequeued?)
  }

  /** A worker that sleeps unsignalled has nothing to do, or main is about to
      signal it and still holds the mutex. */
  predicate WakeUp(s: State) {
    && (s.worker == NothingGot ==> s.pending == [])
    && (s.worker == Asleep(false) ==> s.pending == [] || s.main == Added)
  }

  predicate Draining(s: State) {
    s.depth > 0 || s.main == Try || s.main == FinishedHeld || InHand(s.main) != []
  }

  /** A finished request will be noticed. */
  predicate Noticed(s: State) {
    && (s.main == Dequeued(None) ==> s.finished == [])
    && (s.finished != [] ==>
          s.pipe > 0 || s.worker.FinishedLocked? || s.worker == Enqueued || s.worker == ToWrite || Draining(s))
  }

  /** Each accepted request is in exactly one place: the ids 0, 1, .. submitted-1
      all occur, and none occurs twice. */
  predicate Conserved(p: seq<Request>, n: nat) {
    |p| == n
    && (forall i :: 0 <= i < |p| ==> p[i].id < n)
    && (forall i, j :: 0 <= i < j < |p| ==> p[i].id != p[j].id)
  }

  /** Only an urgent request stands in front of one that was accepted earlier. */
  predicate Ordered(p: seq<Request>) {
    forall i, j :: 0 <= i < j < |p| ==> p[i].urgent || p[i].id < p[j].id
  }

  predicate All(rs: seq<Request>, lookups: nat) {
    forall i :: 0 <= i < |rs| ==> rs[i].lookups == lookups
  }

  /** Each request is looked up once, between the two queues. */
  predicate LookedUp(s: State) {
    && All(s.delivered, 1) && All(InHand(s.main), 1) && All(s.finished, 1)
    && All(s.pending, 0) && All(Coming(s.main), 0)
    && All(AtWorker(s.worker), if s.worker.Got? || s.worker.Looking? then 0 else 1)
  }

  predicate Inv(s: State) {
    Locks(s) && WakeUp(s) && Noticed(s) && s.pipe <= s.capacity && s.capacity >= 1
    && Conserved(Pipeline(s), s.submitted) && Ordered(Pipeline(s)) && LookedUp(s)
  }
}
