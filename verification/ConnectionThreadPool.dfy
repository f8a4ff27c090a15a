/** The connection thread pool as a step system. Every critical section of the
    source runs under one mutex and is therefore one atomic step; what a thread
    does outside the mutex (handling, closing, joining, draining) is a step of
    its own, so a run is any interleaving of all of them.

    `accepted`, `taken` and `retired` are history variables: the submissions that
    were accepted, the jobs that left the queue, and the jobs whose descriptor
    went through the closing statement, each in order. */
module ConnectionThreadPool {

  /** The kernel reuses descriptor numbers, so `ticket` tells accepted submissions apart. */
  datatype Job = Job(ticket: nat, client: int)

  datatype Worker =
    | Ready                 // about to take the mutex and evaluate the wait predicate
    | Asleep                // blocked on the condition variable
    | Handling(job: Job)    // inside the handler
    | Closing(job: Job)     // handler returned or threw, descriptor still open
    | Exited

  /** Where the call of stop() that set the flag is. */
  datatype Stopper = NotStopped | FlagSet | Joining(next: nat) | Draining | Returned

  datatype Pool = Pool(
    queueLimit: nat,
    jobs: seq<Job>,
    stopping: bool,
    workers: seq<Worker>,
    stopper: Stopper,
    accepted: seq<Job>,
    taken: seq<Job>,
    retired: seq<Job>)

  datatype Event =
    | Submit(client: int, woken: nat)  // `woken` is notify_one's choice when someone sleeps
    | SpuriousWake(w: nat)
    | Poll(w: nat)
    | HandlerReturns(w: nat)
    | HandlerThrows(w: nat)
    | Close(w: nat)
    | Stop
    | NotifyAll
    | Join
    | JoinedAll
    | DrainOne
    | Return

  function Start(workerCount: nat, queueLimit: nat): Pool {
    Pool(queueLimit, [], false, seq(workerCount, _ => Ready), NotStopped, [], [], [])
  }

  predicate SomeAsleep(ws: seq<Worker>) {
    exists i :: 0 <= i < |ws| && ws[i].Asleep?
  }

  predicate Enabled(p: Pool, e: Event) {
    match e
    case Submit(_, i) => SomeAsleep(p.workers) ==> i < |p.workers| && p.workers[i].Asleep?
    case SpuriousWake(i) => i < |p.workers| && p.workers[i].Asleep?
    case Poll(i) => i < |p.workers| && p.workers[i].Ready?
    case HandlerReturns(i) => i < |p.workers| && p.workers[i].Handling?
    case HandlerThrows(i) => i < |p.workers| && p.workers[i].Handling?
    case Close(i) => i < |p.workers| && p.workers[i].Closing?
    case Stop => true
    case NotifyAll => p.stopper.FlagSet?
    case Join => p.stopper.Joining? && p.stopper.next < |p.workers| && p.workers[p.stopper.next].Exited?
    case JoinedAll => p.stopper.Joining? && p.stopper.next == |p.workers|
    case DrainOne => p.stopper.Draining? && p.jobs != []
    case Return => p.stopper.Draining? && p.jobs == []
  }

  function WakeAll(ws: seq<Worker>): (r: seq<Worker>)
    ensures |r| == |ws|
    ensures forall i :: 0 <= i < |ws| ==> r[i] == if ws[i].Asleep? then Ready else ws[i]
  {
    if ws == [] then [] else [if ws[0].Asleep? then Ready else ws[0]] + WakeAll(ws[1..])
  }

  /** One pass through the body of the worker loop's critical section. */
  function PollStep(p: Pool, i: nat): Pool
    requires i < |p.workers|
  {
    if !p.stopping && p.jobs == [] then
      p.(workers := p.workers[i := Asleep])
    else if p.jobs == [] then
      p.(workers := p.workers[i := Exited])
    else
      p.(workers := p.workers[i := Handling(p.jobs[0])],
         jobs := p.jobs[1..],
         taken := p.taken + [p.jobs[0]])
  }

  function SubmitStep(p: Pool, client: int, woken: nat): Pool
    requires Enabled(p, Submit(client, woken))
  {
    if p.stopping || |p.jobs| >= p.queueLimit then p
    else
      var job := Job(|p.accepted|, client);
      p.(jobs := p.jobs + [job],
         accepted := p.accepted + [job],
         workers := if SomeAsleep(p.workers) then p.workers[woken := Ready] else p.workers)
  }

  function Apply(p: Pool, e: Event): Pool
    requires Enabled(p, e)
  {
    match e
    case Submit(client, i) => SubmitStep(p, client, i)
    case SpuriousWake(i) => p.(workers := p.workers[i := Ready])
    case Poll(i) => PollStep(p, i)
    case HandlerReturns(i) => p.(workers := p.workers[i := Closing(p.workers[i].job)])
    case HandlerThrows(i) => p.(workers := p.workers[i := Closing(p.workers[i].job)])
    case Close(i) => p.(workers := p.workers[i := Ready], retired := p.retired + [p.workers[i].job])
    case Stop => if p.stopping then p else p.(stopping := true, stopper := FlagSet)
    case NotifyAll => p.(stopper := Joining(0), workers := WakeAll(p.workers))
    case Join => p.(stopper := Joining(p.stopper.next + 1))
    case JoinedAll => p.(stopper := Draining)
    case DrainOne =>
      p.(jobs := p.jobs[1..], taken := p.taken + [p.jobs[0]], retired := p.retired + [p.jobs[0]])
    case Return => p.(stopper := Returned)
  }

  /** `es` is an interleaving that leads from `p` to `q`. */
  predicate Reaches(p: Pool, es: seq<Event>, q: Pool)
    decreases |es|
  {
    if es == [] then p == q
    else Enabled(p, es[0]) && Reaches(Apply(p, es[0]), es[1..], q)
  }

  // ---- Sums over the workers ----

  function Total(ws: seq<Worker>, weight: Worker -> nat): nat {
    if ws == [] then 0 else weight(ws[0]) + Total(ws[1..], weight)
  }

  lemma {:induction false} TotalUpdate(ws: seq<Worker>, i: nat, w: Worker, weight: Worker -> nat)
    requires i < |ws|
    ensures Total(ws[i := w], weight) + weight(ws[i]) == Total(ws, weight) + weight(w)
  {
    if i == 0 {
      assert ws[0 := w][1..] == ws[1..];
    } else {
      TotalUpdate(ws[1..], i - 1, w, weight);
      assert ws[i := w][1..] == ws[1..][i - 1 := w];
    }
  }

  function ReadyOne(w: Worker): nat { if w.Ready? then 1 else 0 }

  function Holds(j: Job): Worker -> nat {
    (w: Worker) => if (w.Handling? || w.Closing?) && w.job == j then 1 else 0
  }

  /** How many workers have job `j` in hand. */
  function InHand(ws: seq<Worker>, j: Job): nat { Total(ws, Holds(j)) }

  lemma {:induction false} NoneInHand(ws: seq<Worker>, j: Job)
    requires forall i :: 0 <= i < |ws| ==> !ws[i].Handling? && !ws[i].Closing?
    ensures InHand(ws, j) == 0
  {
    if ws != [] { NoneInHand(ws[1..], j); }
  }

  lemma {:induction false} WakeAllKeepsHands(ws: seq<Worker>, j: Job)
    ensures InHand(WakeAll(ws), j) == InHand(ws, j)
  {
    if ws != [] {
      WakeAllKeepsHands(ws[1..], j);
      assert WakeAll(ws)[1..] == WakeAll(ws[1..]);
    }
  }

  // ---- The invariant ----

  /** `j` left the queue as often as it was picked up for good: in a hand or retired. */
  predicate Accounted(p: Pool, j: Job) {
    multiset(p.taken)[j] == InHand(p.workers, j) + multiset(p.retired)[j]
  }

  /** Queue bound, first-in-first-out order and conservation of descriptors. */
  ghost predicate Conserved(p: Pool) {
    && |p.jobs| <= p.queueLimit
    && (forall i :: 0 <= i < |p.accepted| ==> p.accepted[i].ticket == i)
    && p.accepted == p.taken + p.jobs
    && (forall j :: Accounted(p, j))
  }

  /** While anyone sleeps there is an awake worker on its way to every queued job. */
  predicate NoLostWakeUp(p: Pool) {
    SomeAsleep(p.workers) ==> |p.jobs| <= Total(p.workers, ReadyOne)
  }

  predicate StopProtocol(p: Pool) {
    && (p.stopping <==> p.stopper != NotStopped)
    && (forall i :: 0 <= i < |p.workers| && p.workers[i].Exited? ==> p.stopping && p.jobs == [])
    && (p.stopper.Joining? || p.stopper.Draining? || p.stopper.Returned? ==> !SomeAsleep(p.workers))
    && (p.stopper.Joining? ==>
          p.stopper.next <= |p.workers| && forall i :: 0 <= i < p.stopper.next ==> p.workers[i].Exited?)
    && (p.stopper.Draining? || p.stopper.Returned? ==> forall i :: 0 <= i < |p.workers| ==> p.workers[i].Exited?)
    && (p.stopper.Returned? ==> p.jobs == [])
  }

  ghost predicate Inv(p: Pool) {
    Conserved(p) && NoLostWakeUp(p) && StopProtocol(p)
  }

  lemma StartInv(workerCount: nat, queueLimit: nat)
    ensures Inv(Start(workerCount, queueLimit))
  {
    forall j ensures Accounted(Start(workerCount, queueLimit), j) {
      NoneInHand(Start(workerCount, queueLimit).workers, j);
    }
  }

  lemma PollAccounts(p: Pool, i: nat, j: Job)
    requires Accounted(p, j) && i < |p.workers| && p.workers[i].Ready?
    ensures Accounted(PollStep(p, i), j)
  {
    TotalUpdate(p.workers, i, PollStep(p, i).workers[i], Holds(j));
  }

  lemma StepAccounts(p: Pool, e: Event, j: Job)
    requires Accounted(p, j) && Enabled(p, e)
    ensures Accounted(Apply(p, e), j)
  {
    var q := Apply(p, e);
    match e
    case Submit(_, i) => if SomeAsleep(p.workers) { TotalUpdate(p.workers, i, Ready, Holds(j)); }
    case SpuriousWake(i) => TotalUpdate(p.workers, i, Ready, Holds(j));
    case Poll(i) => PollAccounts(p, i, j);
    case HandlerReturns(i) => TotalUpdate(p.workers, i, q.workers[i], Holds(j));
    case HandlerThrows(i) => TotalUpdate(p.workers, i, q.workers[i], Holds(j));
    case Close(i) => TotalUpdate(p.workers, i, Ready, Holds(j));
    case NotifyAll => WakeAllKeepsHands(p.workers, j);
    case _ =>
  }

  lemma StepConserves(p: Pool, e: Event)
    requires Conserved(p) && Enabled(p, e)
    ensures Conserved(Apply(p, e))
  {
    forall j ensures Accounted(Apply(p, e), j) {
      assert Accounted(p, j);
      StepAccounts(p, e, j);
    }
    if p.jobs != [] { assert p.jobs == [p.jobs[0]] + p.jobs[1..]; }
  }

  lemma StepKeepsWakeUps(p: Pool, e: Event)
    requires Inv(p) && Enabled(p, e)
    ensures NoLostWakeUp(Apply(p, e))
  {
    var q := Apply(p, e);
    match e
    case Submit(_, i) => if SomeAsleep(p.workers) { TotalUpdate(p.workers, i, Ready, ReadyOne); }
    case SpuriousWake(i) => TotalUpdate(p.workers, i, Ready, ReadyOne);
    case Poll(i) => TotalUpdate(p.workers, i, q.workers[i], ReadyOne);
    case HandlerReturns(i) => TotalUpdate(p.workers, i, q.workers[i], ReadyOne);
    case HandlerThrows(i) => TotalUpdate(p.workers, i, q.workers[i], ReadyOne);
    case Close(i) => TotalUpdate(p.workers, i, Ready, ReadyOne);
    case _ =>
  }

  lemma StepKeepsStopProtocol(p: Pool, e: Event)
    requires StopProtocol(p) && Enabled(p, e)
    ensures StopProtocol(Apply(p, e))
  {
  }

  lemma StepKeepsInv(p: Pool, e: Event)
    requires Inv(p) && Enabled(p, e)
    ensures Inv(Apply(p, e))
  {
    StepConserves(p, e);
    StepKeepsWakeUps(p, e);
    StepKeepsStopProtocol(p, e);
  }

  lemma {:induction false} RunKeepsInv(p: Pool, es: seq<Event>, q: Pool)
    requires Inv(p) && Reaches(p, es, q)
    ensures Inv(q)
    decreases |es|
  {
    if es != [] {
      StepKeepsInv(p, es[0]);
      RunKeepsInv(Apply(p, es[0]), es[1..], q);
    }
  }

  // ---- Safety over every interleaving ----

  /** Each accepted job is in exactly one of the queue, one worker's hand and the
      retired jobs, once; jobs leave the queue in the order they were accepted. */
  lemma ExactlyOnePlace(workerCount: nat, queueLimit: nat, es: seq<Event>, p: Pool)
    requires Reaches(Start(workerCount, queueLimit), es, p)
    ensures |p.jobs| <= p.queueLimit
    ensures p.accepted == p.taken + p.jobs
    ensures forall j :: j in p.accepted ==>
      multiset(p.jobs)[j] + InHand(p.workers, j) + multiset(p.retired)[j] == 1
  {
    StartInv(workerCount, queueLimit);
    RunKeepsInv(Start(workerCount, queueLimit), es, p);
    forall j | j in p.accepted
      ensures multiset(p.jobs)[j] + InHand(p.workers, j) + multiset(p.retired)[j] == 1
    {
      TicketsDistinct(p.accepted, j);
      assert Accounted(p, j);
      assert multiset(p.accepted) == multiset(p.taken) + multiset(p.jobs);
    }
  }

  lemma {:induction false} TicketsDistinct(accepted: seq<Job>, j: Job)
    requires forall i :: 0 <= i < |accepted| ==> accepted[i].ticket == i
    requires j in accepted
    ensures multiset(accepted)[j] == 1
  {
    var n := |accepted| - 1;
    assert accepted == accepted[..n] + [accepted[n]];
    if j == accepted[n] {
      assert j !in accepted[..n];
      assert multiset(accepted[..n])[j] == 0;
    } else {
      assert j in accepted[..n];
      TicketsDistinct(accepted[..n], j);
    }
  }

  /** The descriptors handed to close(): a negative client is never closed. */
  function CloseCalls(retired: seq<Job>): seq<Job> {
    if retired == [] then []
    else if retired[0].client >= 0 then [retired[0]] + CloseCalls(retired[1..])
    else CloseCalls(retired[1..])
  }

  lemma {:induction false} CloseCallsCount(retired: seq<Job>, j: Job)
    ensures multiset(CloseCalls(retired))[j] == if j.client >= 0 then multiset(retired)[j] else 0
  {
    if retired != [] {
      CloseCallsCount(retired[1..], j);
      assert retired == [retired[0]] + retired[1..];
    }
  }

  lemma AllRetired(p: Pool)
    requires Inv(p) && p.stopper.Returned?
    ensures multiset(p.retired) == multiset(p.accepted)
  {
    assert p.accepted == p.taken;
    forall j ensures multiset(p.retired)[j] == multiset(p.accepted)[j] {
      NoneInHand(p.workers, j);
      assert Accounted(p, j);
    }
  }

  /** When the call of stop() that set the flag returns, every accepted descriptor
      has been closed, exactly once, and no worker is left. */
  lemma StopClosesEverything(workerCount: nat, queueLimit: nat, es: seq<Event>, p: Pool)
    requires Reaches(Start(workerCount, queueLimit), es, p)
    requires p.stopper.Returned?
    ensures multiset(p.retired) == multiset(p.accepted)
    ensures forall j :: j in p.accepted && j.client >= 0 ==> multiset(CloseCalls(p.retired))[j] == 1
    ensures forall i :: 0 <= i < |p.workers| ==> p.workers[i].Exited?
  {
    ExactlyOnePlace(workerCount, queueLimit, es, p);
    StartInv(workerCount, queueLimit);
    RunKeepsInv(Start(workerCount, queueLimit), es, p);
    assert p.accepted == p.taken;
    AllRetired(p);
    forall j | j in p.accepted && j.client >= 0
      ensures multiset(CloseCalls(p.retired))[j] == 1
    {
      CloseCallsCount(p.retired, j);
    }
  }

  /** No interleaving closes a descriptor twice or closes one that was never accepted. */
  lemma NeverClosedTwice(workerCount: nat, queueLimit: nat, es: seq<Event>, p: Pool, j: Job)
    requires Reaches(Start(workerCount, queueLimit), es, p)
    ensures multiset(CloseCalls(p.retired))[j] <= (if j in p.accepted && j.client >= 0 then 1 else 0)
  {
    ExactlyOnePlace(workerCount, queueLimit, es, p);
    StartInv(workerCount, queueLimit);
    RunKeepsInv(Start(workerCount, queueLimit), es, p);
    CloseCallsCount(p.retired, j);
    if j !in p.accepted {
      assert multiset(p.accepted)[j] == 0 && p.taken <= p.accepted;
      assert Accounted(p, j);
    }
  }

  /** Work conservation: a queued job never waits while a worker sleeps unless an
      awake worker is already heading for the queue, one for each queued job. */
  lemma SleepersNeverStarveTheQueue(workerCount: nat, queueLimit: nat, es: seq<Event>, p: Pool)
    requires Reaches(Start(workerCount, queueLimit), es, p)
    ensures SomeAsleep(p.workers) ==> |p.jobs| <= Total(p.workers, ReadyOne)
    ensures p.jobs != [] && |p.workers| > 0 ==>
      exists i :: 0 <= i < |p.workers| && !p.workers[i].Asleep? && !p.workers[i].Exited?
  {
    StartInv(workerCount, queueLimit);
    RunKeepsInv(Start(workerCount, queueLimit), es, p);
    if p.jobs != [] && |p.workers| > 0 {
      if SomeAsleep(p.workers) {
        SomeReady(p.workers);
      } else {
        assert !p.workers[0].Asleep? && !p.workers[0].Exited?;
      }
    }
  }

  lemma {:induction false} SomeReady(ws: seq<Worker>)
    requires Total(ws, ReadyOne) > 0
    ensures exists i :: 0 <= i < |ws| && ws[i].Ready?
  {
    if !ws[0].Ready? {
      SomeReady(ws[1..]);
      var i :| 0 <= i < |ws| - 1 && ws[1..][i].Ready?;
      assert ws[i + 1].Ready?;
    }
  }

  // ---- Shutdown terminates ----

  function WorkerWork(w: Worker): nat {
    match w
    case Exited => 0
    case Ready => 1
    case Asleep => 2
    case Closing(_) => 2
    case Handling(_) => 3
  }

  function StopperWork(p: Pool): nat
    requires StopProtocol(p)
  {
    match p.stopper
    case NotStopped => |p.workers| + 5
    case FlagSet => |p.workers| + 4
    case Joining(k) => |p.workers| - k + 2
    case Draining => 1
    case Returned => 0
  }

  /** What is left to do once stopping: queued jobs, worker positions and the stopper's own. */
  function Remaining(p: Pool): nat
    requires StopProtocol(p)
  {
    3 * |p.jobs| + Total(p.workers, WorkerWork) + StopperWork(p)
  }

  lemma {:induction false} WakeAllLightens(ws: seq<Worker>)
    ensures Total(WakeAll(ws), WorkerWork) <= Total(ws, WorkerWork)
  {
    if ws != [] {
      WakeAllLightens(ws[1..]);
      assert WakeAll(ws)[1..] == WakeAll(ws[1..]);
    }
  }

  /** Once stopping, every step that changes anything lowers `Remaining`. */
  lemma ShutdownStepDecreases(p: Pool, e: Event)
    requires StopProtocol(p) && p.stopping && Enabled(p, e) && Apply(p, e) != p
    ensures StopProtocol(Apply(p, e)) && Remaining(Apply(p, e)) < Remaining(p)
  {
    StepKeepsStopProtocol(p, e);
    var q := Apply(p, e);
    match e
    case SpuriousWake(i) => TotalUpdate(p.workers, i, Ready, WorkerWork);
    case Poll(i) => TotalUpdate(p.workers, i, q.workers[i], WorkerWork);
    case HandlerReturns(i) => TotalUpdate(p.workers, i, q.workers[i], WorkerWork);
    case HandlerThrows(i) => TotalUpdate(p.workers, i, q.workers[i], WorkerWork);
    case Close(i) => TotalUpdate(p.workers, i, Ready, WorkerWork);
    case NotifyAll => WakeAllLightens(p.workers);
    case _ =>
  }

  /** `es` leads from `p` to `q` and every event changes the state. */
  predicate Effective(p: Pool, es: seq<Event>, q: Pool)
    decreases |es|
  {
    if es == [] then p == q
    else Enabled(p, es[0]) && Apply(p, es[0]) != p && Effective(Apply(p, es[0]), es[1..], q)
  }

  lemma {:induction false} ShutdownIsBounded(p: Pool, es: seq<Event>, q: Pool)
    requires Inv(p) && p.stopping && Effective(p, es, q)
    ensures Inv(q) && |es| + Remaining(q) <= Remaining(p)
    decreases |es|
  {
    if es != [] {
      ShutdownStepDecreases(p, es[0]);
      StepKeepsInv(p, es[0]);
      ShutdownIsBounded(Apply(p, es[0]), es[1..], q);
    }
  }

  /** A step of a worker or of the stopping thread, not of a client and not a spurious wake-up. */
  predicate OwnStep(e: Event) {
    !e.Submit? && !e.SpuriousWake? && !e.Stop?
  }

  /** No shutdown state is stuck: until stop() returns some own step can be taken
      and changes the state, provided handlers return. */
  lemma ShutdownProgress(p: Pool) returns (e: Event)
    requires Inv(p) && p.stopping && !p.stopper.Returned?
    ensures OwnStep(e) && Enabled(p, e) && Apply(p, e) != p
  {
    match p.stopper
    case FlagSet => e := NotifyAll;
    case Joining(k) =>
      if k == |p.workers| {
        e := JoinedAll;
      } else {
        assert !p.workers[k].Asleep?;
        match p.workers[k]
        case Exited => e := Join;
        case Ready => e := Poll(k);
        case Handling(_) => e := HandlerReturns(k);
        case Closing(_) => e := Close(k);
      }
    case Draining => e := if p.jobs == [] then Return else DrainOne;
  }

  /** Every pool state that has begun to stop can be run to the end of stop(), in at
      most `Remaining` steps of its own threads, and every descriptor is then closed. */
  lemma {:induction false} ShutdownCompletes(p: Pool) returns (es: seq<Event>, q: Pool)
    requires Inv(p) && p.stopping
    ensures Effective(p, es, q) && q.stopper.Returned? && |es| <= Remaining(p)
    ensures forall i :: 0 <= i < |es| ==> OwnStep(es[i])
    ensures multiset(q.retired) == multiset(q.accepted) && q.accepted == p.accepted
    decreases Remaining(p)
  {
    if p.stopper.Returned? {
      AllRetired(p);
      es, q := [], p;
    } else {
      var e := ShutdownProgress(p);
      ShutdownStepDecreases(p, e);
      StepKeepsInv(p, e);
      var rest;
      rest, q := ShutdownCompletes(Apply(p, e));
      es := [e] + rest;
      assert es[1..] == rest;
    }
  }

  /** With at least one worker the tail loop of stop() never finds a job. */
  lemma TailDrainIsIdle(workerCount: nat, queueLimit: nat, es: seq<Event>, p: Pool)
    requires workerCount > 0
    requires Reaches(Start(workerCount, queueLimit), es, p)
    ensures !Enabled(p, DrainOne)
  {
    StartInv(workerCount, queueLimit);
    RunKeepsInv(Start(workerCount, queueLimit), es, p);
    WorkerCountFixed(Start(workerCount, queueLimit), es, p);
    if p.stopper.Draining? {
      assert p.workers[0].Exited?;
    }
  }

  lemma {:induction false} WorkerCountFixed(p: Pool, es: seq<Event>, q: Pool)
    requires Reaches(p, es, q)
    ensures |q.workers| == |p.workers|
    decreases |es|
  {
    if es != [] { WorkerCountFixed(Apply(p, es[0]), es[1..], q); }
  }

  // ---- When a submission is accepted ----

  /** What the events alone say: how many jobs are queued, whether stop() was called, and the
      clients accepted, in order. */
  datatype Gate = Gate(queued: nat, stopped: bool, clients: seq<int>)

  /** A client gets in exactly while nobody has called stop() and fewer than `limit` jobs are
      queued; a polling worker takes a queued job if there is one. */
  function Pass(g: Gate, e: Event, limit: nat): Gate {
    match e
    case Submit(client, _) =>
      if !g.stopped && g.queued < limit then Gate(g.queued + 1, g.stopped, g.clients + [client]) else g
    case Poll(_) => if g.queued > 0 then g.(queued := g.queued - 1) else g
    case DrainOne => if g.queued > 0 then g.(queued := g.queued - 1) else g
    case Stop => g.(stopped := true)
    case _ => g
  }

  function PassAll(g: Gate, es: seq<Event>, limit: nat): Gate
    decreases |es|
  {
    if es == [] then g else PassAll(Pass(g, es[0], limit), es[1..], limit)
  }

  function Clients(jobs: seq<Job>): (r: seq<int>)
    ensures |r| == |jobs| && forall i :: 0 <= i < |jobs| ==> r[i] == jobs[i].client
  {
    seq(|jobs|, i requires 0 <= i < |jobs| => jobs[i].client)
  }

  function GateOf(p: Pool): Gate { Gate(|p.jobs|, p.stopping, Clients(p.accepted)) }

  lemma StepPasses(p: Pool, e: Event)
    requires Enabled(p, e)
    ensures GateOf(Apply(p, e)) == Pass(GateOf(p), e, p.queueLimit) && Apply(p, e).queueLimit == p.queueLimit
  {
    var q := Apply(p, e);
    if e.Submit? && !p.stopping && |p.jobs| < p.queueLimit {
      assert Clients(q.accepted) == Clients(p.accepted) + [e.client];
    } else {
      assert q.accepted == p.accepted;
    }
  }

  lemma {:induction false} RunPasses(p: Pool, es: seq<Event>, q: Pool)
    requires Reaches(p, es, q)
    ensures GateOf(q) == PassAll(GateOf(p), es, p.queueLimit)
    decreases |es|
  {
    hide Apply, Pass, GateOf;
    if es != [] {
      StepPasses(p, es[0]);
      RunPasses(Apply(p, es[0]), es[1..], q);
    }
  }

  /** After every interleaving the accepted clients, in order, are exactly those that came
      while stop() had not been called and fewer than the limit were queued, all counted from
      the events alone; and the queue is as long as they say. */
  lemma AcceptanceFollowsEvents(workerCount: nat, queueLimit: nat, es: seq<Event>, p: Pool)
    requires Reaches(Start(workerCount, queueLimit), es, p)
    ensures var g := PassAll(Gate(0, false, []), es, queueLimit);
            Clients(p.accepted) == g.clients && |p.jobs| == g.queued && p.stopping == g.stopped
  {
    hide PassAll, Reaches;
    RunPasses(Start(workerCount, queueLimit), es, p);
    assert Clients([]) == [];
  }

  /** The clients of all submissions, in order. */
  function Submitted(es: seq<Event>): seq<int> {
    if es == [] then []
    else if es[0].Submit? then [es[0].client] + Submitted(es[1..])
    else Submitted(es[1..])
  }

  /** Nobody calls stop(), and no submission meets a full queue. */
  predicate NeverFull(g: Gate, es: seq<Event>, limit: nat)
    decreases |es|
  {
    es == [] || (es[0] != Stop && (es[0].Submit? ==> g.queued < limit) && NeverFull(Pass(g, es[0], limit), es[1..], limit))
  }

  lemma {:induction false} AllPass(g: Gate, es: seq<Event>, limit: nat)
    requires !g.stopped && NeverFull(g, es, limit)
    ensures PassAll(g, es, limit).clients == g.clients + Submitted(es)
    decreases |es|
  {
    if es != [] {
      AllPass(Pass(g, es[0], limit), es[1..], limit);
      if es[0].Submit? {
        assert g.clients + ([es[0].client] + Submitted(es[1..])) == (g.clients + [es[0].client]) + Submitted(es[1..]);
      }
    } else {
      assert g.clients + [] == g.clients;
    }
  }

  /** Then every submitted client is accepted, in the order of submission. */
  lemma EverybodyGetsIn(workerCount: nat, queueLimit: nat, es: seq<Event>, p: Pool)
    requires Reaches(Start(workerCount, queueLimit), es, p) && NeverFull(Gate(0, false, []), es, queueLimit)
    ensures Clients(p.accepted) == Submitted(es)
  {
    hide PassAll, Reaches, NeverFull, Submitted;
    AcceptanceFollowsEvents(workerCount, queueLimit, es, p);
    AllPass(Gate(0, false, []), es, queueLimit);
    assert [] + Submitted(es) == Submitted(es);
  }
}
