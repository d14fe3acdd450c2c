/** Safety and progress of the lookup pipeline over every interleaving. */
module DnsProofs {
  import opened Options
  import opened DnsThreads
  import opened Permutations

  /** Ids and urgency only: what ordering and conservation look at. */
  predicate Same(p: seq<Request>, q: seq<Request>) {
    |p| == |q| && forall i :: 0 <= i < |p| ==> p[i].id == q[i].id && p[i].urgent == q[i].urgent
  }

  /** The last request passes those from position `k` on. */
  function Overtake(p: seq<Request>, k: nat): seq<Request>
    requires k < |p|
  {
    p[..k] + [p[|p| - 1]] + p[k..|p| - 1]
  }

  /** What one step may do to the pipeline: a submitted request joins at the
      end, and an urgent one passes the pending ones when it is queued; nothing
      else moves. */
  predicate Evolves(p: seq<Request>, p': seq<Request>, s: State, step: Step) {
    match step
    case Submit(urgent) => p' == p + [Request(s.submitted, urgent, 0)]
    case Add =>
      s.main.PendingHeld?
      && (if s.main.r.urgent then
            |s.pending| < |p| && p[|p| - 1] == s.main.r && p' == Overtake(p, |p| - 1 - |s.pending|)
          else p' == p)
    case Lookup => Same(p, p')
    case _ => p' == p
  }

  lemma PipelineStep(s: State, step: Step)
    requires Enabled(s, step)
    ensures Evolves(Pipeline(s), Pipeline(Do(s, step)), s, step)
  {
    if step.Add? {
      AddStep(s);
    } else if step.Lookup? {
      LookupStep(s);
    } else if step in {Dequeue, WorkerDequeue} {
      DequeueStep(s, step);
    } else if step in {Deliver, Enqueue} {
      HandOn(s, step);
    } else {
      Still(s, step);
    }
  }

  lemma AddStep(s: State)
    requires Enabled(s, Add)
    ensures var p, p' := Pipeline(s), Pipeline(Do(s, Add));
            if s.main.r.urgent then
              |s.pending| < |p| && p[|p| - 1] == s.main.r && p' == Overtake(p, |p| - 1 - |s.pending|)
            else p' == p
  {
    var front := s.delivered + InHand(s.main) + s.finished + AtWorker(s.worker);
    var p := Pipeline(s);
    assert p == front + s.pending + [s.main.r];
    if s.main.r.urgent {
      assert p[..|front|] == front && p[|front|..|p| - 1] == s.pending;
      assert Pipeline(Do(s, Add)) == front + ([s.main.r] + s.pending);
    } else {
      assert Pipeline(Do(s, Add)) == front + (s.pending + [s.main.r]);
    }
  }

  lemma LookupStep(s: State)
    requires Enabled(s, Lookup)
    ensures Same(Pipeline(s), Pipeline(Do(s, Lookup)))
  {
    var s', k := Do(s, Lookup), |s.delivered + InHand(s.main) + s.finished|;
    assert Pipeline(s') == Pipeline(s)[k := s'.worker.r];
    assert Pipeline(s)[k] == s.worker.r;
  }

  lemma DequeueStep(s: State, step: Step)
    requires Enabled(s, step) && (step == Dequeue || step == WorkerDequeue)
    ensures Pipeline(Do(s, step)) == Pipeline(s)
  {
    var s' := Do(s, step);
    assert InHand(s.main) + s.finished == InHand(s'.main) + s'.finished;
    assert AtWorker(s.worker) + s.pending == AtWorker(s'.worker) + s'.pending;
    Regroup(s);
    Regroup(s');
  }

  lemma HandOn(s: State, step: Step)
    requires Enabled(s, step) && (step == Deliver || step == Enqueue)
    ensures Pipeline(Do(s, step)) == Pipeline(s)
  {
    var s' := Do(s, step);
    assert s.delivered + InHand(s.main) == s'.delivered + InHand(s'.main);
    assert s.finished + AtWorker(s.worker) == s'.finished + AtWorker(s'.worker);
    assert Pipeline(s) == (s.delivered + InHand(s.main)) + (s.finished + AtWorker(s.worker)) + s.pending + Coming(s.main);
    assert Pipeline(s') ==
      (s'.delivered + InHand(s'.main)) + (s'.finished + AtWorker(s'.worker)) + s'.pending + Coming(s'.main);
  }

  lemma Regroup(s: State)
    ensures Pipeline(s) == s.delivered + (InHand(s.main) + s.finished) + (AtWorker(s.worker) + s.pending) + Coming(s.main)
  {
  }

  /** All other steps leave the six parts as they are. */
  lemma Still(s: State, step: Step)
    requires Enabled(s, step) && step !in {Add, Lookup, Dequeue, WorkerDequeue, Deliver, Enqueue}
    ensures var s' := Do(s, step);
            && s'.delivered == s.delivered && InHand(s'.main) == InHand(s.main) && s'.finished == s.finished
            && AtWorker(s'.worker) == AtWorker(s.worker) && s'.pending == s.pending
            && Coming(s'.main) == if step.Submit? then [Request(s.submitted, step.urgent, 0)] else Coming(s.main)
    ensures step.Submit? ==> Coming(s.main) == []
  {
  }

  // ---- The invariant ---------------------------------------------------------

  lemma OvertakeKeeps(p: seq<Request>, k: nat, n: nat)
    requires Conserved(p, n) && Ordered(p) && k < |p| && p[|p| - 1].urgent
    ensures Conserved(Overtake(p, k), n) && Ordered(Overtake(p, k))
  {
    var q := Overtake(p, k);
    assert forall i :: 0 <= i < |q| ==> q[i] == p[if i < k then i else if i == k then |p| - 1 else i - 1];
  }

  lemma SubmitKeeps(p: seq<Request>, n: nat, urgent: bool)
    requires Conserved(p, n) && Ordered(p)
    ensures Conserved(p + [Request(n, urgent, 0)], n + 1) && Ordered(p + [Request(n, urgent, 0)])
  {
  }

  lemma SameKeeps(p: seq<Request>, q: seq<Request>, n: nat)
    requires Conserved(p, n) && Ordered(p) && Same(p, q)
    ensures Conserved(q, n) && Ordered(q)
  {
  }

  /** Each request stays in exactly one place, and in order. */
  lemma EvolvesKeeps(p: seq<Request>, p': seq<Request>, s: State, step: Step)
    requires Conserved(p, s.submitted) && Ordered(p) && Evolves(p, p', s, step)
    ensures Conserved(p', if step.Submit? then s.submitted + 1 else s.submitted) && Ordered(p')
  {
    hide Conserved, Ordered, Overtake, Same;
    match step
    case Submit(urgent) => SubmitKeeps(p, s.submitted, urgent);
    case Add =>
      if s.main.r.urgent {
        OvertakeKeeps(p, |p| - 1 - |s.pending|, s.submitted);
      }
    case Lookup => SameKeeps(p, p', s.submitted);
    case _ =>
  }

  lemma KeepsControl(s: State, step: Step)
    requires Inv(s) && Enabled(s, step)
    ensures var s' := Do(s, step);
            Locks(s') && WakeUp(s') && Noticed(s') && s'.pipe <= s'.capacity && s'.capacity == s.capacity
  {
    hide Pipeline, LookedUp, Conserved, Ordered;
  }

  lemma KeepsMainSide(s: State, step: Step)
    requires LookedUp(s) && Enabled(s, step)
    ensures var s' := Do(s, step); All(s'.delivered, 1) && All(InHand(s'.main), 1) && All(Coming(s'.main), 0)
  {
    assert InHand(s.main) != [] ==> InHand(s.main)[0].lookups == 1;
    assert Coming(s.main) != [] ==> Coming(s.main)[0].lookups == 0;
  }

  lemma KeepsWorkerSide(s: State, step: Step)
    requires LookedUp(s) && Enabled(s, step)
    ensures var s' := Do(s, step);
            && All(s'.finished, 1) && All(s'.pending, 0)
            && All(AtWorker(s'.worker), if s'.worker.Got? || s'.worker.Looking? then 0 else 1)
  {
    assert Coming(s.main) != [] ==> Coming(s.main)[0].lookups == 0;
    assert AtWorker(s.worker) != [] ==>
      AtWorker(s.worker)[0].lookups == if s.worker.Got? || s.worker.Looking? then 0 else 1;
  }

  lemma SubmittedStep(s: State, step: Step)
    requires Enabled(s, step)
    ensures Do(s, step).submitted == if step.Submit? then s.submitted + 1 else s.submitted
  {
  }

  lemma Keeps(s: State, step: Step)
    requires Inv(s) && Enabled(s, step)
    ensures Inv(Do(s, step))
  {
    hide Pipeline, All, Locks, WakeUp, Noticed, Conserved, Ordered, Do, Enabled, Evolves;
    PipelineStep(s, step);
    EvolvesKeeps(Pipeline(s), Pipeline(Do(s, step)), s, step);
    SubmittedStep(s, step);
    KeepsControl(s, step);
    KeepsMainSide(s, step);
    KeepsWorkerSide(s, step);
  }

  /** The invariant holds after every run, whatever the interleaving. */
  lemma {:induction false} Safety(s: State, steps: seq<Step>)
    requires Inv(s) && Legal(s, steps)
    ensures Inv(After(s, steps))
    decreases |steps|
  {
    if steps == [] {
    } else {
      Keeps(s, steps[0]);
      hide Inv, Do;
      Safety(Do(s, steps[0]), steps[1..]);
    }
  }

  // ---- What the invariant means ----------------------------------------------

  lemma Start(s: State)
    requires Init(s)
    ensures Inv(s)
  {
  }

  /** Whatever the interleaving, no request is left without a wake-up call: a
      sleeping worker that nobody has signalled or is about to signal has no
      pending request, and a finished request has a byte in the pipe, or the
      worker has yet to write one, or main is emptying the queue. */
  lemma NothingStranded(s0: State, steps: seq<Step>)
    requires Init(s0) && Legal(s0, steps)
    ensures var s := After(s0, steps);
            && (s.worker == Asleep(false) && s.pendingLock != Main ==> s.pending == [])
            && (s.finished != [] ==>
                  s.pipe > 0 || s.finishedLock == Worker || s.worker == ToWrite || Draining(s))
            && !(s.worker in {PendingLocked, NothingGot, Woken} && s.main in {Added, Signalled})
  {
    Start(s0);
    Safety(s0, steps);
    hide After, Legal, Pipeline, LookedUp, Conserved, Ordered;
  }

  lemma EachOnce(p: seq<Request>, n: nat, id: nat)
    requires Conserved(p, n) && id < n
    ensures exists i :: 0 <= i < |p| && p[i].id == id && forall j :: 0 <= j < |p| && p[j].id == id ==> j == i
  {
    var ids := seq(|p|, i requires 0 <= i < |p| => p[i].id);
    Occurs(ids, id);
    var i :| 0 <= i < |ids| && ids[i] == id;
    assert p[i].id == id;
  }

  /** At every moment each accepted request is in exactly one place. */
  lemma ExactlyOnce(s0: State, steps: seq<Step>, id: nat)
    requires Init(s0) && Legal(s0, steps) && id < After(s0, steps).submitted
    ensures var p := Pipeline(After(s0, steps));
            exists i :: 0 <= i < |p| && p[i].id == id && forall j :: 0 <= j < |p| && p[j].id == id ==> j == i
  {
    Start(s0);
    Safety(s0, steps);
    assert Conserved(Pipeline(After(s0, steps)), After(s0, steps).submitted);
    hide *;
    EachOnce(Pipeline(After(s0, steps)), After(s0, steps).submitted, id);
  }

  /** No request is delivered twice or without its one lookup, and a request that
      is delivered before an older one is urgent. */
  lemma DeliveryOrder(s0: State, steps: seq<Step>)
    requires Init(s0) && Legal(s0, steps)
    ensures var d := After(s0, steps).delivered;
            && (forall i, j :: 0 <= i < j < |d| ==> d[i].id != d[j].id && (d[i].urgent || d[i].id < d[j].id))
            && (forall i :: 0 <= i < |d| ==> d[i].id < After(s0, steps).submitted && d[i].lookups == 1)
  {
    Start(s0);
    Safety(s0, steps);
    var s := After(s0, steps);
    hide After, Legal, Init, Locks, WakeUp, Noticed;
    assert forall i :: 0 <= i < |s.delivered| ==> s.delivered[i] == Pipeline(s)[i];
  }

  // ---- Progress ---------------------------------------------------------------

  /** A bound on the number of steps left if no new request is accepted and the
      worker does not wake up by itself. */
  function Measure(s: State): nat {
    18 * |s.pending| + 5 * |s.finished| + 5 * s.pipe + 5 * s.depth + WorkerRank(s.worker) + MainRank(s.main)
  }

  function WorkerRank(w: WorkerAt): nat {
    match w
    case Asleep(false) => 0
    case NothingGot => 1
    case PendingLocked => 2
    case Top => 3
    case Woken => 4
    case Asleep(true) => 5
    case ToWrite => 9
    case Enqueued => 10
    case FinishedLocked(_) => 16
    case Answered(_) => 17
    case Looking(_) => 18
    case Got(_) => 19
  }

  function MainRank(m: MainAt): nat {
    match m
    case Away => 0
    case Released(None) => 1
    case Dequeued(None) => 2
    case FinishedHeld => 3
    case Try => 4
    case Released(Some(_)) => 6
    case Dequeued(Some(_)) => 7
    case Signalled => 1
    case Added => 7
    case PendingHeld(_) => 26
    case WantPending(_) => 27
  }

  predicate Own(step: Step) {
    !step.Submit? && !step.Spurious?
  }

  lemma Falls(s: State, step: Step)
    requires Enabled(s, step) && Own(step)
    ensures Measure(Do(s, step)) < Measure(s)
  {
  }

  /** Until every request is delivered, some thread can take a step of its own:
      there is no deadlock and no lost wake-up. */
  lemma SomeStep(s: State) returns (step: Step)
    requires Inv(s) && |s.delivered| < s.submitted
    ensures Enabled(s, step) && Own(step)
  {
    match s.main
    case WantPending(_) => step := if s.pendingLock == Nobody then LockPending else WorkerSteps(s);
    case PendingHeld(_) => step := Add;
    case Added => step := Signal;
    case Signalled => step := UnlockPending;
    case Try => step := TryLock;
    case FinishedHeld => step := Dequeue;
    case Dequeued(_) => step := UnlockFinished;
    case Released(dns) => step := if dns.Some? then Deliver else Return;
    case Away =>
      if s.depth > 0 {
        step := CallbackReturns;
      } else if s.pipe > 0 {
        step := ReadByte;
      } else {
        step := WorkerSteps(s);
      }
  }

  /** While main holds no lock, the worker is stuck only asleep or at a full pipe. */
  function WorkerSteps(s: State): Step {
    match s.worker
    case Top => WorkerLock
    case PendingLocked => WorkerDequeue
    case NothingGot => Wait
    case Asleep(_) => Wake
    case Woken => UnlockWoken
    case Got(_) => UnlockGot
    case Looking(_) => Lookup
    case Answered(_) => LockFinished
    case FinishedLocked(_) => Enqueue
    case Enqueued => WorkerUnlock
    case ToWrite => WriteByte
  }

  predicate AllOwn(steps: seq<Step>) {
    forall i :: 0 <= i < |steps| ==> Own(steps[i])
  }

  /** Left alone, the pipeline stops after a bounded number of steps. */
  lemma {:induction false} StopsSoon(s: State, steps: seq<Step>)
    requires Legal(s, steps) && AllOwn(steps)
    ensures |steps| + Measure(After(s, steps)) <= Measure(s)
    ensures After(s, steps).submitted == s.submitted
    decreases |steps|
  {
    if steps == [] {
    } else {
      Falls(s, steps[0]);
      SubmittedStep(s, steps[0]);
      hide Measure, Do;
      StopsSoon(Do(s, steps[0]), steps[1..]);
    }
  }

  /** It stops only with everything delivered: when no thread can move, every
      accepted request has been handed to its callback, whatever the schedule. */
  lemma EverythingDelivered(s0: State, steps: seq<Step>)
    requires Init(s0) && Legal(s0, steps)
    requires forall step :: Own(step) ==> !Enabled(After(s0, steps), step)
    ensures var s := After(s0, steps);
            |s.delivered| == s.submitted && s.delivered == Pipeline(s) && s.pending == [] && s.finished == []
  {
    Start(s0);
    Safety(s0, steps);
    var s := After(s0, steps);
    assert |Pipeline(s)| == s.submitted;
    hide After, Legal, Init, Enabled, Inv, Conserved, Ordered;
    if |s.delivered| < s.submitted {
      var step := SomeStep(s);
    }
  }

  /** From every reachable state some schedule delivers everything. */
  lemma {:induction false} CanFinish(s: State) returns (steps: seq<Step>)
    requires Inv(s)
    ensures Legal(s, steps) && AllOwn(steps)
    ensures |After(s, steps).delivered| == s.submitted
    decreases Measure(s)
  {
    assert |s.delivered| <= |Pipeline(s)| == s.submitted;
    hide Inv, Enabled, Do, Measure;
    if |s.delivered| == s.submitted {
      return [];
    }
    var step := SomeStep(s);
    Falls(s, step);
    Keeps(s, step);
    SubmittedStep(s, step);
    var rest := CanFinish(Do(s, step));
    steps := [step] + rest;
    assert steps[1..] == rest;
  }
}
