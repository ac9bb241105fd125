/** The worker pool (pkg/worker): one job's retry loop, and every schedule of
    submissions, workers and shutdown. */
module WorkerPool {
  import opened Sequences
  import opened Sums

  // ----- One job -----------------------------------------------------------------------

  /** `tried` are the results of a finished job's attempts, in order: it stops at
      the first success or after maxRetries + 1 attempts. A negative maxRetries
      never runs the task at all. */
  predicate WellTried(tried: seq<bool>, maxRetries: int) {
    if maxRetries < 0 then tried == []
    else
      && 1 <= |tried| <= maxRetries + 1
      && (forall k :: 0 <= k < |tried| - 1 ==> !tried[k])
      && (tried[|tried| - 1] || |tried| == maxRetries + 1)
  }

  /** The response is nil: the `err` left by the loop is that of the last attempt,
      or never assigned. */
  predicate NilResponse(tried: seq<bool>) { tried == [] || tried[|tried| - 1] }

  method RunJob(succeeds: nat -> bool, maxRetries: int) returns (tried: seq<bool>, ok: bool)
    ensures WellTried(tried, maxRetries)
    ensures forall k :: 0 <= k < |tried| ==> tried[k] == succeeds(k)
    ensures ok == NilResponse(tried)
  {
    ok := true;
    tried := [];
    var retries := 0;
    while retries <= maxRetries
      invariant 0 <= retries == |tried| && retries <= if maxRetries < 0 then 0 else maxRetries + 1
      invariant forall k :: 0 <= k < |tried| ==> !tried[k] && !succeeds(k)
      invariant ok == (tried == [])
    {
      ok := succeeds(retries);
      tried := tried + [ok];
      if ok {
        break;
      }
      retries := retries + 1;
    }
  }

  /** With at least one attempt allowed, a nil response means some attempt
      succeeded and an error that all maxRetries + 1 failed. With none allowed the
      caller gets nil for a task that never ran. */
  lemma ResponseMeaning(tried: seq<bool>, maxRetries: int)
    requires WellTried(tried, maxRetries)
    ensures maxRetries >= 0 ==> (NilResponse(tried) <==> true in tried)
    ensures maxRetries >= 0 ==> (!NilResponse(tried) <==> |tried| == maxRetries + 1 && true !in tried)
    ensures maxRetries < 0 ==> NilResponse(tried) && true !in tried
  {
    if maxRetries >= 0 && NilResponse(tried) {
      assert tried[|tried| - 1] in tried;
    }
  }

  // ----- The pool ------------------------------------------------------------------------

  datatype Settings = Settings(queueSize: nat, maxRetries: int)

  /** Jobs are numbered in the order they were accepted. */
  datatype Worker = Idle | Trying(job: nat, tried: seq<bool>) | Delivering(job: nat, tried: seq<bool>) | Gone

  datatype Pool = Pool(accepted: nat, queue: seq<nat>, workers: seq<Worker>,
                       answers: map<nat, seq<bool>>, dropped: set<nat>, stopped: bool)

  datatype Event =
    | Submit                        // accepted into the queue
    | HandOver(w: nat)              // accepted straight by a waiting worker
    | Receive(w: nat)
    | Attempt(w: nat, ok: bool)
    | Deliver(w: nat)
    | Abandon(w: nat)               // the pool stops before the response is taken
    | Stop
    | Leave(w: nat)

  /** A submission that finds no room is rejected and changes nothing. One that
      passed the shutdown check before `Stop` can still be accepted after it. */
  predicate Enabled(cfg: Settings, p: Pool, e: Event) {
    match e
    case Submit => |p.queue| < cfg.queueSize
    case HandOver(w) => p.queue == [] && w < |p.workers| && p.workers[w].Idle?
    case Receive(w) => p.queue != [] && w < |p.workers| && p.workers[w].Idle?
    case Attempt(w, _) => w < |p.workers| && p.workers[w].Trying?
    case Deliver(w) => w < |p.workers| && p.workers[w].Delivering?
    case Abandon(w) => p.stopped && w < |p.workers| && p.workers[w].Delivering?
    case Stop => true
    case Leave(w) => p.stopped && w < |p.workers| && p.workers[w].Idle?
  }

  function Begin(cfg: Settings, job: nat): Worker {
    if cfg.maxRetries < 0 then Delivering(job, []) else Trying(job, [])
  }

  function Next(cfg: Settings, p: Pool, e: Event): Pool
    requires Enabled(cfg, p, e)
  {
    match e
    case Submit => p.(accepted := p.accepted + 1, queue := p.queue + [p.accepted])
    case HandOver(w) => p.(accepted := p.accepted + 1, workers := p.workers[w := Begin(cfg, p.accepted)])
    case Receive(w) => p.(queue := p.queue[1..], workers := p.workers[w := Begin(cfg, p.queue[0])])
    case Attempt(w, ok) =>
      var tried := p.workers[w].tried + [ok];
      var job := p.workers[w].job;
      var next := if ok || |tried| > cfg.maxRetries then Delivering(job, tried) else Trying(job, tried);
      p.(workers := p.workers[w := next])
    case Deliver(w) => p.(workers := p.workers[w := Idle], answers := p.answers[p.workers[w].job := p.workers[w].tried])
    case Abandon(w) => p.(workers := p.workers[w := Idle], dropped := p.dropped + {p.workers[w].job})
    case Stop => p.(stopped := true)
    case Leave(w) => p.(workers := p.workers[w := Gone])
  }

  ghost predicate IsRun(cfg: Settings, p: Pool, es: seq<Event>)
    decreases |es|
  {
    es == [] || (Enabled(cfg, p, es[0]) && IsRun(cfg, Next(cfg, p, es[0]), es[1..]))
  }

  function Run(cfg: Settings, p: Pool, es: seq<Event>): Pool
    requires IsRun(cfg, p, es)
    decreases |es|
  {
    if es == [] then p else Run(cfg, Next(cfg, p, es[0]), es[1..])
  }

  function Start(workers: nat): Pool { Pool(0, [], seq(workers, _ => Idle), map[], {}, false) }

  /** A submission is accepted exactly when the queue has room, or the queue is empty
      and a worker waits; it then goes last. */
  lemma SubmissionsAreAccepted(cfg: Settings, p: Pool)
    ensures Enabled(cfg, p, Submit) <==> |p.queue| < cfg.queueSize
    ensures Enabled(cfg, p, Submit) ==>
              var p' := Next(cfg, p, Submit);
              p'.accepted == p.accepted + 1 && p'.queue == p.queue + [p.accepted] && p'.workers == p.workers
    ensures forall w: nat :: Enabled(cfg, p, HandOver(w)) <==> p.queue == [] && w < |p.workers| && p.workers[w].Idle?
  {
  }

  // ----- Conservation ----------------------------------------------------------------------

  function Is(job: nat): nat -> nat { (j: nat) => if j == job then 1 else 0 }

  function Holds(job: nat): Worker -> nat {
    (w: Worker) => if (w.Trying? || w.Delivering?) && w.job == job then 1 else 0
  }

  function Busy(): Worker -> nat { (w: Worker) => if w.Trying? || w.Delivering? then 1 else 0 }

  /** In how many places a job is: queued, running, answered, dropped. */
  function Places(p: Pool, job: nat): nat {
    Sum(p.queue, Is(job)) + Sum(p.workers, Holds(job))
    + (if job in p.answers then 1 else 0) + (if job in p.dropped then 1 else 0)
  }

  ghost predicate EachInOnePlace(p: Pool) {
    forall job: nat :: Places(p, job) == if job < p.accepted then 1 else 0
  }

  predicate Counted(p: Pool) {
    p.accepted == |p.queue| + Sum(p.workers, Busy()) + |p.answers| + |p.dropped|
  }

  predicate RetriesRespected(cfg: Settings, p: Pool) {
    && |p.queue| <= cfg.queueSize
    && (forall w :: w in p.workers && w.Trying? ==> |w.tried| <= cfg.maxRetries && true !in w.tried)
    && (forall w :: w in p.workers && w.Delivering? ==> WellTried(w.tried, cfg.maxRetries))
    && (forall job :: job in p.answers ==> WellTried(p.answers[job], cfg.maxRetries))
    && (!p.stopped ==> p.dropped == {} && Gone !in p.workers)
  }

  ghost predicate Invariant(cfg: Settings, p: Pool) {
    EachInOnePlace(p) && Counted(p) && RetriesRespected(cfg, p)
  }

  /** A job comes in, or moves from the queue to a worker. */
  lemma QueueingKeepsPlaces(cfg: Settings, p: Pool, e: Event, job: nat)
    requires EachInOnePlace(p) && Enabled(cfg, p, e) && (e.Submit? || e.HandOver? || e.Receive?)
    ensures Places(Next(cfg, p, e), job) == if job < Next(cfg, p, e).accepted then 1 else 0
  {
    assert Places(p, job) == if job < p.accepted then 1 else 0;
    if e.Submit? {
      SumAppend(p.queue, p.accepted, Is(job));
    } else {
      SumUpdate(p.workers, e.w, Next(cfg, p, e).workers[e.w], Holds(job));
    }
  }

  /** A worker goes on with its job, or is done with it. */
  lemma WorkingKeepsPlaces(cfg: Settings, p: Pool, e: Event, job: nat)
    requires EachInOnePlace(p) && Enabled(cfg, p, e) && !(e.Submit? || e.HandOver? || e.Receive?)
    ensures Places(Next(cfg, p, e), job) == if job < Next(cfg, p, e).accepted then 1 else 0
  {
    assert Places(p, job) == if job < p.accepted then 1 else 0;
    if !e.Stop? {
      SumUpdate(p.workers, e.w, Next(cfg, p, e).workers[e.w], Holds(job));
    }
  }

  lemma NextKeepsPlaces(cfg: Settings, p: Pool, e: Event)
    requires EachInOnePlace(p) && Enabled(cfg, p, e)
    ensures EachInOnePlace(Next(cfg, p, e))
  {
    forall job: nat ensures Places(Next(cfg, p, e), job) == if job < Next(cfg, p, e).accepted then 1 else 0 {
      if e.Submit? || e.HandOver? || e.Receive? {
        QueueingKeepsPlaces(cfg, p, e, job);
      } else {
        WorkingKeepsPlaces(cfg, p, e, job);
      }
    }
  }

  /** A worker's own job is nowhere else. */
  lemma HeldJobIsPending(p: Pool, w: nat)
    requires EachInOnePlace(p) && w < |p.workers| && (p.workers[w].Trying? || p.workers[w].Delivering?)
    ensures p.workers[w].job !in p.answers && p.workers[w].job !in p.dropped
  {
    var job := p.workers[w].job;
    assert Places(p, job) == if job < p.accepted then 1 else 0;
    SumUpdate(p.workers, w, Idle, Holds(job));
  }

  lemma NextKeepsCount(cfg: Settings, p: Pool, e: Event)
    requires EachInOnePlace(p) && Counted(p) && Enabled(cfg, p, e)
    ensures Counted(Next(cfg, p, e))
  {
    var p' := Next(cfg, p, e);
    if !e.Submit? && !e.Stop? {
      SumUpdate(p.workers, e.w, p'.workers[e.w], Busy());
    }
    if e.Deliver? || e.Abandon? {
      HeldJobIsPending(p, e.w);
    }
  }

  lemma NextKeepsRetries(cfg: Settings, p: Pool, e: Event)
    requires RetriesRespected(cfg, p) && Enabled(cfg, p, e)
    ensures RetriesRespected(cfg, Next(cfg, p, e))
  {
    if e.Attempt? {
      assert p.workers[e.w] in p.workers;
    }
  }

  /** In every schedule, shutdown included, each accepted job is in exactly one
      place; before shutdown accepted = queued + running + answered; the queue
      keeps its bound; and every answered job was tried as the retry policy says. */
  lemma {:induction false} JobsAreConserved(cfg: Settings, p: Pool, es: seq<Event>)
    requires Invariant(cfg, p) && IsRun(cfg, p, es)
    ensures Invariant(cfg, Run(cfg, p, es))
    decreases |es|
  {
    if es != [] {
      NextKeepsPlaces(cfg, p, es[0]);
      NextKeepsCount(cfg, p, es[0]);
      NextKeepsRetries(cfg, p, es[0]);
      JobsAreConserved(cfg, Next(cfg, p, es[0]), es[1..]);
    }
  }

  lemma StartIsSound(cfg: Settings, workers: nat)
    ensures Invariant(cfg, Start(workers))
  {
    SumConstant(Start(workers).workers, Busy(), 0);
    forall job: nat ensures Places(Start(workers), job) == 0 {
      SumConstant(Start(workers).workers, Holds(job), 0);
    }
  }

  /** An answer, once given, is never given again or changed. */
  lemma {:induction false} OneResponsePerJob(cfg: Settings, p: Pool, es: seq<Event>, job: nat)
    requires Invariant(cfg, p) && IsRun(cfg, p, es) && job in p.answers
    ensures job in Run(cfg, p, es).answers && Run(cfg, p, es).answers[job] == p.answers[job]
    decreases |es|
  {
    if es != [] {
      JobsAreConserved(cfg, p, [es[0]]);
      assert [es[0]][1..] == [];
      assert Run(cfg, p, [es[0]]) == Run(cfg, Next(cfg, p, es[0]), []);
      if es[0].Deliver? {
        HeldJobIsPending(p, es[0].w);
      }
      OneResponsePerJob(cfg, Next(cfg, p, es[0]), es[1..], job);
    }
  }

  // ----- Order ---------------------------------------------------------------------------

  /** The queue is the last jobs accepted, in order: so the oldest goes next. */
  predicate Fifo(p: Pool) {
    |p.queue| <= p.accepted && forall i :: 0 <= i < |p.queue| ==> p.queue[i] == p.accepted - |p.queue| + i
  }

  /** Jobs are received in the order they were accepted, whatever the schedule: the
      one received is older than every job still queued, and newer than none. */
  lemma {:induction false} JobsAreTakenInOrder(cfg: Settings, p: Pool, es: seq<Event>)
    requires Fifo(p) && IsRun(cfg, p, es)
    ensures Fifo(Run(cfg, p, es))
    decreases |es|
  {
    if es != [] {
      JobsAreTakenInOrder(cfg, Next(cfg, p, es[0]), es[1..]);
    }
  }

  // ----- The response ----------------------------------------------------------------------

  predicate HeldBy(p: Pool, w: nat, job: nat) {
    w < |p.workers| && (p.workers[w].Trying? || p.workers[w].Delivering?) && p.workers[w].job == job
  }

  /** What the attempts of `job` returned, in the order they were made. */
  function Attempts(cfg: Settings, p: Pool, es: seq<Event>, job: nat): seq<bool>
    requires IsRun(cfg, p, es)
    decreases |es|
  {
    if es == [] then []
    else
      (if es[0].Attempt? && HeldBy(p, es[0].w, job) then [es[0].ok] else [])
      + Attempts(cfg, Next(cfg, p, es[0]), es[1..], job)
  }

  /** `tried` is what is known of `job` wherever it is. */
  ghost predicate Record(p: Pool, job: nat, tried: seq<bool>) {
    && (job in p.answers ==> p.answers[job] == tried)
    && (forall w: nat :: HeldBy(p, w, job) ==> p.workers[w].tried == tried)
    && (job in p.queue || job >= p.accepted ==> tried == [])
  }

  lemma {:induction false} CountedWhenQueued(queue: seq<nat>, job: nat)
    ensures job in queue <==> Sum(queue, Is(job)) > 0
  {
    SumZero(queue, Is(job));
  }

  /** A job held by a worker is with nobody else. */
  lemma HeldAlone(p: Pool, w: nat, job: nat)
    requires EachInOnePlace(p) && HeldBy(p, w, job)
    ensures job !in p.queue && job !in p.answers && job !in p.dropped && job < p.accepted
    ensures forall v: nat :: HeldBy(p, v, job) ==> v == w
  {
    assert Places(p, job) == if job < p.accepted then 1 else 0;
    SumUpdate(p.workers, w, Idle, Holds(job));
    CountedWhenQueued(p.queue, job);
    SumZero(p.workers[w := Idle], Holds(job));
    forall v: nat | v < |p.workers| && v != w ensures Holds(job)(p.workers[v]) == 0 {
      assert Holds(job)(p.workers[w := Idle][v]) == 0;
    }
  }

  /** A queued job, or one not accepted yet, is with no worker. */
  lemma QueuedAlone(p: Pool, job: nat)
    requires EachInOnePlace(p) && (job in p.queue || job >= p.accepted)
    ensures job !in p.answers && forall w: nat :: !HeldBy(p, w, job)
  {
    assert Places(p, job) == if job < p.accepted then 1 else 0;
    CountedWhenQueued(p.queue, job);
    SumZero(p.workers, Holds(job));
    assert forall w: nat :: w < |p.workers| ==> Holds(job)(p.workers[w]) == 0;
  }

  lemma NextKeepsRecord(cfg: Settings, p: Pool, e: Event, job: nat, tried: seq<bool>)
    requires EachInOnePlace(p) && Enabled(cfg, p, e) && Record(p, job, tried)
    ensures Record(Next(cfg, p, e), job, tried + if e.Attempt? && HeldBy(p, e.w, job) then [e.ok] else [])
  {
    var p' := Next(cfg, p, e);
    if job in p.queue || job >= p.accepted {
      QueuedAlone(p, job);
    }
    if (e.Attempt? || e.Deliver? || e.Abandon?) && HeldBy(p, e.w, job) {
      HeldAlone(p, e.w, job);
    }
    var tried' := tried + if e.Attempt? && HeldBy(p, e.w, job) then [e.ok] else [];
    assert e.Receive? ==> p.queue[0] in p.queue;
    forall w: nat | HeldBy(p', w, job) ensures p'.workers[w].tried == tried' {
      if !e.Submit? && !e.Stop? && w == e.w {
        assert e.Attempt? ==> HeldBy(p, w, job);
      } else {
        assert HeldBy(p, w, job);
      }
    }
    assert job in p'.queue ==> job in p.queue || job == p.accepted;
  }

  /** A response carries exactly what the job's attempts returned, in order, over
      every schedule: with `ResponseMeaning`, nil if and only if one succeeded. */
  lemma {:induction false} ResponsesAreTheAttempts(cfg: Settings, p: Pool, es: seq<Event>, job: nat, tried: seq<bool>)
    requires EachInOnePlace(p) && IsRun(cfg, p, es) && Record(p, job, tried)
    ensures Record(Run(cfg, p, es), job, tried + Attempts(cfg, p, es, job))
    decreases |es|
  {
    if es == [] {
      assert tried + [] == tried;
    } else {
      var e := es[0];
      var one := if e.Attempt? && HeldBy(p, e.w, job) then [e.ok] else [];
      NextKeepsPlaces(cfg, p, e);
      NextKeepsRecord(cfg, p, e, job, tried);
      ResponsesAreTheAttempts(cfg, Next(cfg, p, e), es[1..], job, tried + one);
      Assoc(tried, one, Attempts(cfg, Next(cfg, p, e), es[1..], job));
    }
  }

  // ----- Every job is answered ---------------------------------------------------------------

  predicate Working(e: Event) { e.Receive? || e.Attempt? || e.Deliver? }

  function StepsOf(cfg: Settings): Worker -> nat {
    (w: Worker) =>
      match w
      case Trying(_, tried) => if |tried| <= cfg.maxRetries then cfg.maxRetries + 2 - |tried| else 1
      case Delivering(_, _) => 1
      case _ => 0
  }

  function StepsPerJob(cfg: Settings): nat -> nat { (job: nat) => if cfg.maxRetries < 0 then 2 else cfg.maxRetries + 3 }

  /** How many steps the workers can still take on the jobs there are. */
  function WorkLeft(cfg: Settings, p: Pool): nat { Sum(p.queue, StepsPerJob(cfg)) + Sum(p.workers, StepsOf(cfg)) }

  lemma WorkDecreases(cfg: Settings, p: Pool, e: Event)
    requires RetriesRespected(cfg, p) && Enabled(cfg, p, e) && Working(e)
    ensures WorkLeft(cfg, Next(cfg, p, e)) < WorkLeft(cfg, p)
  {
    SumUpdate(p.workers, e.w, Next(cfg, p, e).workers[e.w], StepsOf(cfg));
    assert p.workers[e.w] in p.workers;
  }

  /** While a pool that is not stopping has a worker, and jobs queued or held, some
      worker can take a step, whatever the tasks return. */
  lemma NeverStuck(cfg: Settings, p: Pool, succeeds: (nat, nat) -> bool) returns (e: Event)
    requires RetriesRespected(cfg, p) && !p.stopped && p.workers != []
    requires p.queue != [] || Sum(p.workers, Busy()) > 0
    ensures Enabled(cfg, p, e) && Working(e) && Honest(p, e, succeeds)
  {
    SumZero(p.workers, Busy());
    if w: nat :| w < |p.workers| && p.workers[w].Trying? {
      return Attempt(w, succeeds(p.workers[w].job, |p.workers[w].tried|));
    }
    if w: nat :| w < |p.workers| && p.workers[w].Delivering? {
      return Deliver(w);
    }
    assert p.workers[0] in p.workers;
    return Receive(0);
  }

  /** An attempt returns what its task makes of it. */
  predicate Honest(p: Pool, e: Event, succeeds: (nat, nat) -> bool) {
    e.Attempt? && e.w < |p.workers| && p.workers[e.w].Trying? ==>
      e.ok == succeeds(p.workers[e.w].job, |p.workers[e.w].tried|)
  }

  ghost predicate HonestRun(cfg: Settings, p: Pool, es: seq<Event>, succeeds: (nat, nat) -> bool)
    requires IsRun(cfg, p, es)
    decreases |es|
  {
    es == [] || (Working(es[0]) && Honest(p, es[0], succeeds) && HonestRun(cfg, Next(cfg, p, es[0]), es[1..], succeeds))
  }

  /** From every reachable state of a pool that has a worker and is not stopping, the
      workers can go on, whatever the tasks return, until every accepted job has had
      its response; and however they are scheduled they take no more than
      `WorkLeft` steps, as each of them lowers it. */
  lemma {:induction false} EveryJobIsAnswered(cfg: Settings, p: Pool, succeeds: (nat, nat) -> bool)
    returns (es: seq<Event>)
    requires Invariant(cfg, p) && !p.stopped && p.workers != []
    ensures IsRun(cfg, p, es) && HonestRun(cfg, p, es, succeeds) && |es| <= WorkLeft(cfg, p)
    ensures Run(cfg, p, es).queue == [] && Run(cfg, p, es).accepted == p.accepted
    ensures forall job: nat :: job < p.accepted ==> job in Run(cfg, p, es).answers
    decreases WorkLeft(cfg, p)
  {
    if p.queue == [] && Sum(p.workers, Busy()) == 0 {
      es := [];
      SumZero(p.workers, Busy());
      forall job: nat | job < p.accepted ensures job in p.answers {
        assert Places(p, job) == 1;
        SumZero(p.workers, Holds(job));
        assert forall i :: 0 <= i < |p.workers| ==> Busy()(p.workers[i]) == 0 && Holds(job)(p.workers[i]) == 0;
      }
    } else {
      var e := NeverStuck(cfg, p, succeeds);
      NextKeepsPlaces(cfg, p, e);
      NextKeepsCount(cfg, p, e);
      NextKeepsRetries(cfg, p, e);
      WorkDecreases(cfg, p, e);
      var rest := EveryJobIsAnswered(cfg, Next(cfg, p, e), succeeds);
      es := [e] + rest;
      assert es[1..] == rest;
    }
  }
}
