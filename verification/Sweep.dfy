/** One retention pass (`RunOnce` of service/retention.go) as a state machine: the
    listing producer, the bounded queue and the workers, one step at a time. */
module Sweep {
  import opened Options
  import opened KeyMapping
  import opened Tiers
  import opened Retention
  import opened Sums

  datatype Obj = Obj(key: string, size: nat, modified: int)
  datatype Entry = Listed(obj: Obj) | ListError
  datatype Bucket = Bucket(name: string, listing: seq<Entry>)

  /** `now - window` is the cutoff; RETENTION_MAX_CONCURRENT below 1 means 1. */
  datatype Plan = Plan(maxConcurrent: int, dryRun: bool, now: int, window: int) {
    function Workers(): nat { if maxConcurrent < 1 then 1 else maxConcurrent }
    function Capacity(): nat { 4 * Workers() }
    predicate Old(o: Obj) { o.modified < now - window }
  }

  datatype Worker = Idle | Holding(o: Obj) | Removing(o: Obj) | Exited

  datatype Phase =
    | Between
    | Sweeping(bucket: string, listing: seq<Entry>, sending: Option<Obj>, queue: seq<Obj>, closed: bool,
               workers: seq<Worker>)
    | Returned(cancelled: bool)

  /** The last three fields are history: what was removed, what was counted
      deleted, and how many of the errors came from listing. */
  datatype Sweep = Sweep(todo: seq<Bucket>, phase: Phase, count: Stats,
                         removed: multiset<Loc>, deletions: seq<Obj>, listErrors: nat)

  datatype Label =
    | Begin(cancelled: bool)              // the head of the bucket loop
    | List                                // the producer takes the next listing entry
    | Send                                // the producer hands over to the queue
    | Close                               // the listing is exhausted
    | Take(i: nat)                        // worker i receives
    | Answer(i: nat, reason: VerifyReason)
    | Remove(i: nat, ok: bool)            // RemoveObject answers worker i
    | Exit(i: nat)                        // worker i finds the queue closed and empty
    | Join                                // wg.Wait returns

  function Start(buckets: seq<Bucket>): Sweep {
    Sweep(buckets, Between, Stats(0, 0, 0, 0, 0, 0, 0), multiset{}, [], 0)
  }

  function TargetBuckets(cfg: Config, candidates: seq<Bucket>): (out: seq<Bucket>)
    ensures forall b :: b in out <==>
              b in candidates && cfg.enabled && (cfg.scope.EveryBucket? || b.name in cfg.scope.buckets)
  {
    if candidates == [] then []
    else (if cfg.InScope(candidates[0].name) then [candidates[0]] else []) + TargetBuckets(cfg, candidates[1..])
  }

  predicate Enabled(plan: Plan, s: Sweep, l: Label) {
    var p := s.phase;
    match l
    case Begin(_) => p.Between?
    case List => p.Sweeping? && p.sending.None? && p.listing != []
    case Send => p.Sweeping? && p.sending.Some? && |p.queue| < plan.Capacity()
    case Close => p.Sweeping? && p.sending.None? && p.listing == [] && !p.closed
    case Take(i) => p.Sweeping? && i < |p.workers| && p.workers[i].Idle? && p.queue != []
    case Answer(i, _) => p.Sweeping? && i < |p.workers| && p.workers[i].Holding?
    case Remove(i, _) => p.Sweeping? && i < |p.workers| && p.workers[i].Removing?
    case Exit(i) => p.Sweeping? && i < |p.workers| && p.workers[i].Idle? && p.closed && p.queue == []
    case Join => p.Sweeping? && p.closed && forall i :: 0 <= i < |p.workers| ==> p.workers[i].Exited?
  }

  function Next(plan: Plan, s: Sweep, l: Label): Sweep
    requires Enabled(plan, s, l)
  {
    var p := s.phase;
    match l
    case Begin(cancelled) =>
      if s.todo == [] then s.(phase := Returned(false))
      else if cancelled then s.(phase := Returned(true))
      else s.(todo := s.todo[1..],
              phase := Sweeping(s.todo[0].name, s.todo[0].listing, None, [], false, seq(plan.Workers(), _ => Idle)))
    case List =>
      var rest := p.(listing := p.listing[1..]);
      (match p.listing[0]
       case ListError =>
         s.(phase := rest, count := s.count.(errors := s.count.errors + 1), listErrors := s.listErrors + 1)
       case Listed(o) =>
         var scanned := s.count.(scanned := s.count.scanned + 1);
         if !plan.Old(o) then s.(phase := rest, count := scanned)
         else s.(phase := rest.(sending := Some(o)), count := scanned.(eligible := scanned.eligible + 1)))
    case Send => s.(phase := p.(sending := None, queue := p.queue + [p.sending.value]))
    case Close => s.(phase := p.(closed := true))
    case Take(i) => s.(phase := p.(queue := p.queue[1..], workers := p.workers[i := Holding(p.queue[0])]))
    case Answer(i, reason) =>
      var o := p.workers[i].o;
      if reason != VerifyOK then s.(phase := p.(workers := p.workers[i := Idle]), count := CountKept(s.count, reason))
      else if plan.dryRun then
        s.(phase := p.(workers := p.workers[i := Idle]), count := CountDeleted(s.count, o.size),
           deletions := s.deletions + [o])
      else s.(phase := p.(workers := p.workers[i := Removing(o)]))
    case Remove(i, ok) =>
      var o := p.workers[i].o;
      var idle := p.(workers := p.workers[i := Idle]);
      if ok then s.(phase := idle, count := CountDeleted(s.count, o.size), deletions := s.deletions + [o],
                    removed := s.removed + multiset{Loc(p.bucket, o.key)})
      else s.(phase := idle, count := s.count.(errors := s.count.errors + 1))
    case Exit(i) => s.(phase := p.(workers := p.workers[i := Exited]))
    case Join => s.(phase := Between)
  }

  ghost predicate IsRun(plan: Plan, s: Sweep, ls: seq<Label>)
    decreases |ls|
  {
    ls == [] || (Enabled(plan, s, ls[0]) && IsRun(plan, Next(plan, s, ls[0]), ls[1..]))
  }

  function Run(plan: Plan, s: Sweep, ls: seq<Label>): Sweep
    requires IsRun(plan, s, ls)
    decreases |ls|
  {
    if ls == [] then s else Run(plan, Next(plan, s, ls[0]), ls[1..])
  }

  // ----- What every reachable state satisfies ----------------------------------------

  function Busy(): Worker -> nat { (w: Worker) => if w.Holding? || w.Removing? then 1 else 0 }
  function SizeOf(): Obj -> nat { (o: Obj) => o.size }

  /** Eligible objects whose fate is not counted yet: the one the producer is
      sending, the queued ones, and those held by workers. */
  function InFlight(p: Phase): nat {
    if p.Sweeping? then (if p.sending.Some? then 1 else 0) + |p.queue| + Sum(p.workers, Busy()) else 0
  }

  /** The queue is bounded, and closed only when nothing is left to send. */
  ghost predicate Shape(plan: Plan, p: Phase) {
    p.Sweeping? ==>
      && |p.queue| <= 4 * |p.workers|
      && |p.workers| == (if plan.maxConcurrent < 1 then 1 else plan.maxConcurrent)
      && (p.closed ==> p.listing == [] && p.sending.None?)
      && forall i :: 0 <= i < |p.workers| && p.workers[i].Exited? ==> p.closed && p.queue == []
  }

  predicate Balanced(s: Sweep) {
    && s.listErrors <= s.count.errors
    && s.count.eligible == s.count.deleted + s.count.notArchived + s.count.sizeMismatch
                           + (s.count.errors - s.listErrors) + InFlight(s.phase)
  }

  predicate DeletionsCounted(plan: Plan, s: Sweep) {
    && s.count.deleted == |s.deletions|
    && s.count.bytesFreed == Sum(s.deletions, SizeOf())
    && |s.removed| == (if plan.dryRun then 0 else |s.deletions|)
    && (plan.dryRun && s.phase.Sweeping? ==> forall i :: 0 <= i < |s.phase.workers| ==> !s.phase.workers[i].Removing?)
  }

  ghost predicate Invariant(plan: Plan, s: Sweep) {
    Shape(plan, s.phase) && Balanced(s) && DeletionsCounted(plan, s)
  }

  lemma NextKeepsShape(plan: Plan, s: Sweep, l: Label)
    requires Shape(plan, s.phase) && Enabled(plan, s, l)
    ensures Shape(plan, Next(plan, s, l).phase)
  {
  }

  predicate ByWorker(l: Label) { l.Take? || l.Answer? || l.Remove? || l.Exit? }

  lemma ProducerKeepsBalance(plan: Plan, s: Sweep, l: Label)
    requires Shape(plan, s.phase) && Balanced(s) && Enabled(plan, s, l) && !ByWorker(l)
    ensures Balanced(Next(plan, s, l))
  {
    if l.Begin? {
      SumConstant(seq(plan.Workers(), _ => Idle), Busy(), 0);
    } else if l.Join? {
      SumZero(s.phase.workers, Busy());
    }
  }

  lemma WorkerKeepsBalance(plan: Plan, s: Sweep, l: Label)
    requires Balanced(s) && Enabled(plan, s, l) && ByWorker(l)
    ensures Balanced(Next(plan, s, l))
  {
    var workers := s.phase.workers;
    SumUpdate(workers, l.i, Next(plan, s, l).phase.workers[l.i], Busy());
  }

  lemma NextKeepsDeletions(plan: Plan, s: Sweep, l: Label)
    requires DeletionsCounted(plan, s) && Enabled(plan, s, l)
    ensures DeletionsCounted(plan, Next(plan, s, l))
  {
    if l.Answer? || l.Remove? {
      SumAppend(s.deletions, s.phase.workers[l.i].o, SizeOf());
    }
  }

  /** Counter conservation and the queue bound in every reachable state, whatever
      the archive answers, whatever fails, whenever the pass is cancelled. */
  lemma {:induction false} CountersAreConserved(plan: Plan, s: Sweep, ls: seq<Label>)
    requires Invariant(plan, s) && IsRun(plan, s, ls)
    ensures Invariant(plan, Run(plan, s, ls))
    decreases |ls|
  {
    if ls != [] {
      NextKeepsShape(plan, s, ls[0]);
      if ByWorker(ls[0]) {
        WorkerKeepsBalance(plan, s, ls[0]);
      } else {
        ProducerKeepsBalance(plan, s, ls[0]);
      }
      NextKeepsDeletions(plan, s, ls[0]);
      CountersAreConserved(plan, Next(plan, s, ls[0]), ls[1..]);
    }
  }

  /** What a caller reads from the snapshot when the pass returns. */
  lemma ReturnedCountersBalance(plan: Plan, buckets: seq<Bucket>, ls: seq<Label>)
    requires IsRun(plan, Start(buckets), ls) && Run(plan, Start(buckets), ls).phase.Returned?
    ensures var s := Run(plan, Start(buckets), ls);
            && s.count.eligible ==
                 s.count.deleted + s.count.notArchived + s.count.sizeMismatch + (s.count.errors - s.listErrors)
            && s.count.deleted == |s.deletions| && s.count.bytesFreed == Sum(s.deletions, SizeOf())
            && |s.removed| == (if plan.dryRun then 0 else s.count.deleted)
  {
    CountersAreConserved(plan, Start(buckets), ls);
  }

  // ----- What each counter counts ------------------------------------------------------

  function Answered(reason: VerifyReason): Label -> nat { (l: Label) => if l.Answer? && l.reason == reason then 1
    else 0 }

  function Removed(ok: bool): Label -> nat { (l: Label) => if l.Remove? && l.ok == ok then 1 else 0 }

  /** Over every run the counters say how often each thing happened: each kept
      object under its own reason, a failed removal as an error, a successful one
      (or, in a dry run, a verified object) as deleted. */
  lemma {:induction false} CountersCountEvents(plan: Plan, s: Sweep, ls: seq<Label>)
    requires IsRun(plan, s, ls)
    ensures var s' := Run(plan, s, ls);
            && s'.count.notArchived == s.count.notArchived + Sum(ls, Answered(VerifyNotArchived))
            && s'.count.sizeMismatch == s.count.sizeMismatch + Sum(ls, Answered(VerifySizeMismatch))
            && s'.count.errors - s'.listErrors ==
                 s.count.errors - s.listErrors + Sum(ls, Answered(VerifyError)) + Sum(ls, Removed(false))
            && s'.count.deleted == s.count.deleted + Sum(ls, Removed(true)) +
                 (if plan.dryRun then Sum(ls, Answered(VerifyOK)) else 0)
    decreases |ls|
  {
    if ls != [] {
      CountersCountEvents(plan, Next(plan, s, ls[0]), ls[1..]);
    }
  }

  // ----- Cancellation ---------------------------------------------------------------------

  /** What was listed and counted up to a state, for comparing two states. */
  predicate SameSoFar(s: Sweep, s': Sweep) {
    s'.count == s.count && s'.removed == s.removed && s'.deletions == s.deletions && s'.todo == s.todo
  }

  /** A pass that finds itself cancelled before a bucket returns at once, touching
      nothing more; one that is not cancelled returns only when no bucket is left. */
  lemma CancellationStops(plan: Plan, s: Sweep, l: Label, rest: seq<Label>)
    requires Enabled(plan, s, l) && IsRun(plan, Next(plan, s, l), rest)
    ensures l == Begin(true) && s.todo != [] ==>
              rest == [] && Next(plan, s, l).phase == Returned(true) && SameSoFar(s, Next(plan, s, l))
    ensures Next(plan, s, l).phase.Returned? ==> l.Begin? && rest == [] && SameSoFar(s, Next(plan, s, l))
    ensures Next(plan, s, l).phase == Returned(false) <==> l.Begin? && s.todo == []
    ensures Next(plan, s, l).phase == Returned(true) <==> l == Begin(true) && s.todo != []
  {
  }

  /** The producer waits exactly while four objects per worker are queued. */
  lemma ProducerWaitsForRoom(plan: Plan, s: Sweep)
    requires Shape(plan, s.phase) && s.phase.Sweeping? && s.phase.sending.Some?
    ensures Enabled(plan, s, Send) <==> |s.phase.queue| < 4 * |s.phase.workers|
  {
  }

  // ----- Every schedule ends -----------------------------------------------------

  function WorkerSteps(): Worker -> nat {
    (w: Worker) => match w case Idle => 1 case Holding(_) => 3 case Removing(_) => 2 case Exited => 0
  }

  function BucketSteps(plan: Plan): Bucket -> nat {
    (b: Bucket) => 5 * |b.listing| + plan.Workers() + 3
  }

  function StepsLeft(plan: Plan, s: Sweep): nat {
    match s.phase
    case Returned(_) => 0
    case Between => 1 + Sum(s.todo, BucketSteps(plan))
    case Sweeping(_, listing, sending, queue, closed, workers) =>
      2 + Sum(s.todo, BucketSteps(plan)) + 5 * |listing| + (if sending.Some? then 4 else 0) + 3 * |queue|
      + (if closed then 0 else 1) + Sum(workers, WorkerSteps())
  }

  lemma ProducerStepsDecrease(plan: Plan, s: Sweep, l: Label)
    requires Enabled(plan, s, l) && !ByWorker(l)
    ensures StepsLeft(plan, Next(plan, s, l)) < StepsLeft(plan, s)
  {
    if l.Begin? {
      SumConstant(seq(plan.Workers(), _ => Idle), WorkerSteps(), 1);
    }
  }

  lemma WorkerStepsDecrease(plan: Plan, s: Sweep, l: Label)
    requires Enabled(plan, s, l) && ByWorker(l)
    ensures StepsLeft(plan, Next(plan, s, l)) < StepsLeft(plan, s)
  {
    SumUpdate(s.phase.workers, l.i, Next(plan, s, l).phase.workers[l.i], WorkerSteps());
  }

  /** Every schedule ends: no run is longer than a bound fixed by the listing. */
  lemma {:induction false} EveryRunIsBounded(plan: Plan, s: Sweep, ls: seq<Label>)
    requires IsRun(plan, s, ls)
    ensures |ls| + StepsLeft(plan, Run(plan, s, ls)) <= StepsLeft(plan, s)
    decreases |ls|
  {
    if ls != [] {
      if ByWorker(ls[0]) {
        WorkerStepsDecrease(plan, s, ls[0]);
      } else {
        ProducerStepsDecrease(plan, s, ls[0]);
      }
      EveryRunIsBounded(plan, Next(plan, s, ls[0]), ls[1..]);
    }
  }

  // ----- The concurrent pass is a sequential filter -----------------------------------

  /** The archive's answer for each object, fixed while the pass runs. */
  type Answers = (string, Obj) -> VerifyReason

  /** One thing the pass can be observed by: a counter, or how often it removed `x`. */
  datatype Observable =
    | Scanned | Eligible | Deleted | BytesFreed | NotArchived | SizeMismatch | Errors
    | Removals(x: Loc)

  function Observe(s: Sweep, obs: Observable): nat {
    match obs
    case Scanned => s.count.scanned
    case Eligible => s.count.eligible
    case Deleted => s.count.deleted
    case BytesFreed => s.count.bytesFreed
    case NotArchived => s.count.notArchived
    case SizeMismatch => s.count.sizeMismatch
    case Errors => s.count.errors
    case Removals(x) => s.removed[x]
  }

  /** What counting `o` deleted adds. */
  function DeletionAmount(dryRun: bool, obs: Observable, bucket: string, o: Obj): nat {
    match obs
    case Deleted => 1
    case BytesFreed => o.size
    case Removals(x) => if !dryRun && x == Loc(bucket, o.key) then 1 else 0
    case _ => 0
  }

  /** What processing the eligible `o` adds. */
  function FateAmount(plan: Plan, ans: Answers, obs: Observable, bucket: string, o: Obj): nat {
    match ans(bucket, o)
    case VerifyOK => DeletionAmount(plan.dryRun, obs, bucket, o)
    case VerifyNotArchived => if obs == NotArchived then 1 else 0
    case VerifySizeMismatch => if obs == SizeMismatch then 1 else 0
    case VerifyError => if obs == Errors then 1 else 0
  }

  /** What a listing entry adds, by the sequential reading of the sweep. */
  function EntryAmount(plan: Plan, ans: Answers, obs: Observable, bucket: string): Entry -> nat {
    (e: Entry) =>
      match e
      case ListError => if obs == Errors then 1 else 0
      case Listed(o) =>
        match obs
        case Scanned => 1
        case Eligible => if plan.Old(o) then 1 else 0
        case _ => if plan.Old(o) then FateAmount(plan, ans, obs, bucket, o) else 0
  }

  function BucketAmount(plan: Plan, ans: Answers, obs: Observable): Bucket -> nat {
    (b: Bucket) => Sum(b.listing, EntryAmount(plan, ans, obs, b.name))
  }

  /** The sequential specification: filter the listings and count. */
  function Expected(plan: Plan, ans: Answers, obs: Observable, buckets: seq<Bucket>): nat {
    Sum(buckets, BucketAmount(plan, ans, obs))
  }

  function ObjAmount(plan: Plan, ans: Answers, obs: Observable, bucket: string): Obj -> nat {
    (o: Obj) => FateAmount(plan, ans, obs, bucket, o)
  }

  function WorkerAmount(plan: Plan, ans: Answers, obs: Observable, bucket: string): Worker -> nat {
    (w: Worker) =>
      match w
      case Holding(o) => FateAmount(plan, ans, obs, bucket, o)
      case Removing(o) => DeletionAmount(false, obs, bucket, o)
      case _ => 0
  }

  /** What the rest of the pass will add. */
  function Pending(plan: Plan, ans: Answers, obs: Observable, s: Sweep): nat {
    match s.phase
    case Returned(_) => 0
    case Between => Expected(plan, ans, obs, s.todo)
    case Sweeping(bucket, listing, sending, queue, _, workers) =>
      Expected(plan, ans, obs, s.todo) + Sum(listing, EntryAmount(plan, ans, obs, bucket))
      + (if sending.Some? then FateAmount(plan, ans, obs, bucket, sending.value) else 0)
      + Sum(queue, ObjAmount(plan, ans, obs, bucket)) + Sum(workers, WorkerAmount(plan, ans, obs, bucket))
  }

  /** The archive answers as `ans` says, no removal fails, nobody cancels. */
  predicate Faithful(plan: Plan, ans: Answers, s: Sweep, l: Label)
    requires Enabled(plan, s, l)
  {
    match l
    case Begin(cancelled) => !cancelled
    case Answer(i, reason) => reason == ans(s.phase.bucket, s.phase.workers[i].o)
    case Remove(_, ok) => ok
    case _ => true
  }

  ghost predicate FaithfulRun(plan: Plan, ans: Answers, s: Sweep, ls: seq<Label>)
    requires IsRun(plan, s, ls)
    decreases |ls|
  {
    ls == [] || (Faithful(plan, ans, s, ls[0]) && FaithfulRun(plan, ans, Next(plan, s, ls[0]), ls[1..]))
  }

  function Total(plan: Plan, ans: Answers, obs: Observable, s: Sweep): nat {
    Observe(s, obs) + Pending(plan, ans, obs, s)
  }

  lemma BeginPreservesTotal(plan: Plan, ans: Answers, obs: Observable, s: Sweep, l: Label)
    requires Enabled(plan, s, l) && Faithful(plan, ans, s, l) && l.Begin?
    ensures Total(plan, ans, obs, Next(plan, s, l)) == Total(plan, ans, obs, s)
  {
    if s.todo != [] {
      SumConstant(seq(plan.Workers(), _ => Idle), WorkerAmount(plan, ans, obs, s.todo[0].name), 0);
    }
  }

  lemma ListingIsCounted(plan: Plan, ans: Answers, obs: Observable, s: Sweep, l: Label)
    requires Enabled(plan, s, l) && l.List?
    ensures var p := Next(plan, s, l).phase;
            Observe(Next(plan, s, l), obs) +
              (if p.sending.Some? then FateAmount(plan, ans, obs, p.bucket, p.sending.value) else 0)
            == Observe(s, obs) + EntryAmount(plan, ans, obs, p.bucket)(s.phase.listing[0])
  {
  }

  lemma ListPreservesTotal(plan: Plan, ans: Answers, obs: Observable, s: Sweep, l: Label)
    requires Enabled(plan, s, l) && Faithful(plan, ans, s, l) && l.List?
    ensures Total(plan, ans, obs, Next(plan, s, l)) == Total(plan, ans, obs, s)
  {
    ListingIsCounted(plan, ans, obs, s, l);
  }

  lemma SendPreservesTotal(plan: Plan, ans: Answers, obs: Observable, s: Sweep, l: Label)
    requires Enabled(plan, s, l) && Faithful(plan, ans, s, l) && l.Send?
    ensures Total(plan, ans, obs, Next(plan, s, l)) == Total(plan, ans, obs, s)
  {
    SumAppend(s.phase.queue, s.phase.sending.value, ObjAmount(plan, ans, obs, s.phase.bucket));
  }

  lemma JoinPreservesTotal(plan: Plan, ans: Answers, obs: Observable, s: Sweep, l: Label)
    requires Shape(plan, s.phase) && Enabled(plan, s, l) && Faithful(plan, ans, s, l) && (l.Join? || l.Close?)
    ensures Total(plan, ans, obs, Next(plan, s, l)) == Total(plan, ans, obs, s)
  {
    SumZero(s.phase.workers, WorkerAmount(plan, ans, obs, s.phase.bucket));
  }

  lemma TakePreservesTotal(plan: Plan, ans: Answers, obs: Observable, s: Sweep, l: Label)
    requires Enabled(plan, s, l) && Faithful(plan, ans, s, l) && (l.Take? || l.Exit?)
    ensures Total(plan, ans, obs, Next(plan, s, l)) == Total(plan, ans, obs, s)
  {
    SumUpdate(s.phase.workers, l.i, Next(plan, s, l).phase.workers[l.i], WorkerAmount(plan, ans, obs, s.phase.bucket));
  }

  lemma AnswerIsCounted(plan: Plan, ans: Answers, obs: Observable, s: Sweep, l: Label)
    requires Enabled(plan, s, l) && Faithful(plan, ans, s, l) && l.Answer?
    ensures var amount := WorkerAmount(plan, ans, obs, s.phase.bucket);
            Observe(Next(plan, s, l), obs) + amount(Next(plan, s, l).phase.workers[l.i]) ==
              Observe(s, obs) + amount(s.phase.workers[l.i])
  {
  }

  lemma AnswerPreservesTotal(plan: Plan, ans: Answers, obs: Observable, s: Sweep, l: Label)
    requires Enabled(plan, s, l) && Faithful(plan, ans, s, l) && l.Answer?
    ensures Total(plan, ans, obs, Next(plan, s, l)) == Total(plan, ans, obs, s)
  {
    AnswerIsCounted(plan, ans, obs, s, l);
    var p, p' := s.phase, Next(plan, s, l).phase;
    SumUpdate(p.workers, l.i, p'.workers[l.i], WorkerAmount(plan, ans, obs, p.bucket));
    assert p' == p.(workers := p.workers[l.i := p'.workers[l.i]]);
  }

  lemma RemovePreservesTotal(plan: Plan, ans: Answers, obs: Observable, s: Sweep, l: Label)
    requires Enabled(plan, s, l) && Faithful(plan, ans, s, l) && l.Remove?
    ensures Total(plan, ans, obs, Next(plan, s, l)) == Total(plan, ans, obs, s)
  {
    SumUpdate(s.phase.workers, l.i, Idle, WorkerAmount(plan, ans, obs, s.phase.bucket));
  }

  lemma NextPreservesTotal(plan: Plan, ans: Answers, obs: Observable, s: Sweep, l: Label)
    requires Shape(plan, s.phase) && Enabled(plan, s, l) && Faithful(plan, ans, s, l)
    ensures Total(plan, ans, obs, Next(plan, s, l)) == Total(plan, ans, obs, s)
  {
    match l
    case Begin(_) => BeginPreservesTotal(plan, ans, obs, s, l);
    case List => ListPreservesTotal(plan, ans, obs, s, l);
    case Send => SendPreservesTotal(plan, ans, obs, s, l);
    case Take(_) => TakePreservesTotal(plan, ans, obs, s, l);
    case Exit(_) => TakePreservesTotal(plan, ans, obs, s, l);
    case Answer(_, _) => AnswerPreservesTotal(plan, ans, obs, s, l);
    case Remove(_, _) => RemovePreservesTotal(plan, ans, obs, s, l);
    case _ => JoinPreservesTotal(plan, ans, obs, s, l);
  }

  lemma {:induction false} RunPreservesTotal(plan: Plan, ans: Answers, obs: Observable, s: Sweep, ls: seq<Label>)
    requires Shape(plan, s.phase) && IsRun(plan, s, ls) && FaithfulRun(plan, ans, s, ls)
    requires s.phase.Returned? ==> s.todo == []
    ensures Total(plan, ans, obs, Run(plan, s, ls)) == Total(plan, ans, obs, s)
    decreases |ls|
  {
    if ls != [] {
      NextKeepsShape(plan, s, ls[0]);
      NextPreservesTotal(plan, ans, obs, s, ls[0]);
      RunPreservesTotal(plan, ans, obs, Next(plan, s, ls[0]), ls[1..]);
    }
  }

  /** For every worker count and every schedule, a completed pass is observed to
      have done exactly what the sequential filter over the listings says. */
  lemma PassIsAFilter(plan: Plan, ans: Answers, obs: Observable, buckets: seq<Bucket>, ls: seq<Label>)
    requires IsRun(plan, Start(buckets), ls) && FaithfulRun(plan, ans, Start(buckets), ls)
    requires Run(plan, Start(buckets), ls).phase.Returned?
    ensures Observe(Run(plan, Start(buckets), ls), obs) == Expected(plan, ans, obs, buckets)
  {
    RunPreservesTotal(plan, ans, obs, Start(buckets), ls);
  }

  /** The pass never gets stuck: until it returns some step can be taken,
      whatever the archive has to answer. */
  lemma NeverStuck(plan: Plan, ans: Answers, s: Sweep) returns (l: Label)
    requires Shape(plan, s.phase) && !s.phase.Returned?
    ensures Enabled(plan, s, l) && Faithful(plan, ans, s, l)
  {
    if s.phase.Between? {
      return Begin(false);
    }
    var p := s.phase;
    if i :| 0 <= i < |p.workers| && p.workers[i].Holding? {
      return Answer(i, ans(p.bucket, p.workers[i].o));
    }
    if i :| 0 <= i < |p.workers| && p.workers[i].Removing? {
      return Remove(i, true);
    }
    if i :| 0 <= i < |p.workers| && p.workers[i].Idle? {
      if p.queue != [] {
        return Take(i);
      } else if p.sending.Some? {
        return Send;
      } else if p.listing != [] {
        return List;
      } else if !p.closed {
        return Close;
      }
      return Exit(i);
    }
    assert p.workers[0].Exited?;
    return Join;
  }

  /** Every unfinished pass can be run to its end. */
  lemma {:induction false} PassCompletes(plan: Plan, ans: Answers, s: Sweep) returns (ls: seq<Label>)
    requires Shape(plan, s.phase)
    ensures IsRun(plan, s, ls) && FaithfulRun(plan, ans, s, ls) && Run(plan, s, ls).phase.Returned?
    decreases StepsLeft(plan, s)
  {
    if s.phase.Returned? {
      ls := [];
    } else {
      var l := NeverStuck(plan, ans, s);
      NextKeepsShape(plan, s, l);
      if ByWorker(l) {
        WorkerStepsDecrease(plan, s, l);
      } else {
        ProducerStepsDecrease(plan, s, l);
      }
      var rest := PassCompletes(plan, ans, Next(plan, s, l));
      ls := [l] + rest;
      assert ls[1..] == rest;
    }
  }

  // ----- What that means for the objects --------------------------------------------------

  /** The answers of an archive that does not change during the pass. */
  function ArchiveAnswers(cfg: Config, w: World): Answers {
    (bucket: string, o: Obj) => Verify(cfg, w, Loc(bucket, o.key), o.size, Fine)
  }

  predicate DistinctListings(buckets: seq<Bucket>) {
    && (forall i, j :: 0 <= i < j < |buckets| ==> buckets[i].name != buckets[j].name)
    && (forall b :: b in buckets ==> DistinctKeys(b.listing))
  }

  predicate DistinctKeys(listing: seq<Entry>) {
    forall i, j :: 0 <= i < j < |listing| && listing[i].Listed? && listing[j].Listed? ==>
      listing[i].obj.key != listing[j].obj.key
  }

  lemma {:induction false} TargetsStayDistinct(cfg: Config, candidates: seq<Bucket>)
    requires DistinctListings(candidates)
    ensures DistinctListings(TargetBuckets(cfg, candidates))
  {
    if candidates != [] {
      TargetsStayDistinct(cfg, candidates[1..]);
      var rest := TargetBuckets(cfg, candidates[1..]);
      forall i | 0 <= i < |rest| ensures rest[i].name != candidates[0].name {
        assert rest[i] in candidates[1..];
      }
    }
  }

  /** An entry the sweep must remove: old enough, and archived at its size. */
  predicate Removable(plan: Plan, cfg: Config, w: World, bucket: string, e: Entry) {
    && e.Listed? && plan.Old(e.obj)
    && cfg.PlaceOf(Loc(bucket, e.obj.key)) in w.archive
    && |w.archive[cfg.PlaceOf(Loc(bucket, e.obj.key))]| == e.obj.size
  }

  ghost predicate RemovableIn(plan: Plan, cfg: Config, w: World, b: Bucket, x: Loc) {
    x.bucket == b.name && exists e :: e in b.listing && Removable(plan, cfg, w, b.name, e) && e.obj.key == x.key
  }

  lemma BucketRemoves(plan: Plan, cfg: Config, w: World, b: Bucket, x: Loc)
    requires cfg.enabled && !plan.dryRun && DistinctKeys(b.listing)
    ensures BucketAmount(plan, ArchiveAnswers(cfg, w), Removals(x))(b) ==
              if RemovableIn(plan, cfg, w, b, x) then 1 else 0
  {
    var f := EntryAmount(plan, ArchiveAnswers(cfg, w), Removals(x), b.name);
    forall e: Entry
      ensures f(e) == if Removable(plan, cfg, w, b.name, e) && x == Loc(b.name, e.obj.key) then 1 else 0
    {
    }
    SumOfOne(b.listing, f);
    if RemovableIn(plan, cfg, w, b, x) {
      var e :| e in b.listing && Removable(plan, cfg, w, b.name, e) && e.obj.key == x.key;
      var i :| 0 <= i < |b.listing| && b.listing[i] == e;
      assert f(b.listing[i]) == 1;
    }
  }

  /** The sequential reading: one removal if some listed bucket has `x` to remove. */
  lemma ExpectedRemovals(plan: Plan, cfg: Config, w: World, buckets: seq<Bucket>, x: Loc)
    requires cfg.enabled && !plan.dryRun && DistinctListings(buckets)
    ensures Expected(plan, ArchiveAnswers(cfg, w), Removals(x), buckets) ==
              if exists b :: b in buckets && RemovableIn(plan, cfg, w, b, x) then 1 else 0
  {
    var f := BucketAmount(plan, ArchiveAnswers(cfg, w), Removals(x));
    forall b | b in buckets ensures f(b) == if RemovableIn(plan, cfg, w, b, x) then 1 else 0 {
      BucketRemoves(plan, cfg, w, b, x);
    }
    SumOfOne(buckets, f);
    if b :| b in buckets && RemovableIn(plan, cfg, w, b, x) {
      var i :| 0 <= i < |buckets| && buckets[i] == b;
      assert f(buckets[i]) == 1;
    }
  }

  /** A live pass over distinct buckets and keys removes each object of an
      in-scope bucket that is older than the window and archived at its size,
      once, and nothing else, whatever the schedule. */
  lemma LivePassRemovesExactly(plan: Plan, cfg: Config, w: World, candidates: seq<Bucket>, ls: seq<Label>, x: Loc)
    requires cfg.enabled && !plan.dryRun && DistinctListings(candidates)
    requires var start := Start(TargetBuckets(cfg, candidates));
             && IsRun(plan, start, ls) && FaithfulRun(plan, ArchiveAnswers(cfg, w), start, ls)
             && Run(plan, start, ls).phase.Returned?
    ensures Run(plan, Start(TargetBuckets(cfg, candidates)), ls).removed[x] ==
              if exists b :: b in candidates && cfg.InScope(b.name) && RemovableIn(plan, cfg, w, b, x) then 1 else 0
  {
    var buckets := TargetBuckets(cfg, candidates);
    TargetsStayDistinct(cfg, candidates);
    PassIsAFilter(plan, ArchiveAnswers(cfg, w), Removals(x), buckets, ls);
    ExpectedRemovals(plan, cfg, w, buckets, x);
  }

  /** The listings are local storage itself: every object of a candidate bucket,
      with its size and the time it was last modified. */
  ghost predicate ListsTier(w: World, modified: Loc -> int, candidates: seq<Bucket>) {
    forall b :: b in candidates ==>
      && (forall e :: e in b.listing ==>
            && e.Listed? && Loc(b.name, e.obj.key) in w.local
            && e.obj.size == |w.local[Loc(b.name, e.obj.key)]| && e.obj.modified == modified(Loc(b.name, e.obj.key)))
      && forall x :: x in w.local && x.bucket == b.name ==>
           exists e :: e in b.listing && e.Listed? && e.obj.key == x.key
  }

  /** What the pass is for: old, in scope, and archived at the local size. */
  ghost predicate Expired(plan: Plan, cfg: Config, w: World, modified: Loc -> int, candidates: seq<Bucket>, x: Loc)
    requires x in w.local
  {
    && (exists b :: b in candidates && b.name == x.bucket)
    && cfg.enabled && (cfg.scope.EveryBucket? || x.bucket in cfg.scope.buckets)
    && modified(x) < plan.now - plan.window
    && cfg.PlaceOf(x) in w.archive && |w.archive[cfg.PlaceOf(x)]| == |w.local[x]|
  }

  lemma RemovableIsExpired(plan: Plan, cfg: Config, w: World, modified: Loc -> int, candidates: seq<Bucket>, x: Loc)
    requires ListsTier(w, modified, candidates) && x in w.local
    ensures (exists b :: b in candidates && cfg.InScope(b.name) && RemovableIn(plan, cfg, w, b, x)) <==>
              Expired(plan, cfg, w, modified, candidates, x)
  {
    if Expired(plan, cfg, w, modified, candidates, x) {
      var b :| b in candidates && b.name == x.bucket;
      var e :| e in b.listing && e.Listed? && e.obj.key == x.key;
      assert x == Loc(b.name, e.obj.key);
      assert Removable(plan, cfg, w, b.name, e);
      assert RemovableIn(plan, cfg, w, b, x);
    }
    if b :| b in candidates && cfg.InScope(b.name) && RemovableIn(plan, cfg, w, b, x) {
      var e :| e in b.listing && Removable(plan, cfg, w, b.name, e) && e.obj.key == x.key;
      assert x == Loc(b.name, e.obj.key);
    }
  }

  /** What a step leaves of local storage. */
  function TierAfterStep(s: Sweep, l: Label, local: map<Loc, Bytes>): map<Loc, Bytes>
    requires l.Remove? && l.ok ==>
               s.phase.Sweeping? && l.i < |s.phase.workers| && s.phase.workers[l.i].Removing?
  {
    if l.Remove? && l.ok then local - {Loc(s.phase.bucket, s.phase.workers[l.i].o.key)} else local
  }

  /** What a run leaves of local storage. */
  function TierAfter(plan: Plan, s: Sweep, ls: seq<Label>, local: map<Loc, Bytes>): map<Loc, Bytes>
    requires IsRun(plan, s, ls)
    decreases |ls|
  {
    if ls == [] then local else TierAfter(plan, Next(plan, s, ls[0]), ls[1..], TierAfterStep(s, ls[0], local))
  }

  /** An object is gone exactly when the history says it was removed. */
  lemma {:induction false} TierTellsHistory(plan: Plan, s: Sweep, ls: seq<Label>, local: map<Loc, Bytes>, x: Loc)
    requires IsRun(plan, s, ls)
    ensures Run(plan, s, ls).removed[x] >= s.removed[x]
    ensures x in TierAfter(plan, s, ls, local) <==> x in local && Run(plan, s, ls).removed[x] == s.removed[x]
    ensures x in TierAfter(plan, s, ls, local) ==> TierAfter(plan, s, ls, local)[x] == local[x]
    decreases |ls|
  {
    if ls != [] {
      TierTellsHistory(plan, Next(plan, s, ls[0]), ls[1..], TierAfterStep(s, ls[0], local), x);
    }
  }

  lemma ExpiredIsRemoved(plan: Plan, cfg: Config, w: World, modified: Loc -> int, candidates: seq<Bucket>,
                         ls: seq<Label>, x: Loc)
    requires cfg.enabled && !plan.dryRun && DistinctListings(candidates) && ListsTier(w, modified, candidates)
    requires var start := Start(TargetBuckets(cfg, candidates));
             && IsRun(plan, start, ls) && FaithfulRun(plan, ArchiveAnswers(cfg, w), start, ls)
             && Run(plan, start, ls).phase.Returned?
    requires x in w.local
    ensures Run(plan, Start(TargetBuckets(cfg, candidates)), ls).removed[x] ==
              if Expired(plan, cfg, w, modified, candidates, x) then 1 else 0
  {
    LivePassRemovesExactly(plan, cfg, w, candidates, ls, x);
    RemovableIsExpired(plan, cfg, w, modified, candidates, x);
  }

  /** Local storage after a live pass over it: exactly the expired objects are
      gone, each removed once, and the rest is as it was, whatever the schedule. */
  lemma LivePassLeavesTheRest(plan: Plan, cfg: Config, w: World, modified: Loc -> int, candidates: seq<Bucket>,
                              ls: seq<Label>)
    requires cfg.enabled && !plan.dryRun && DistinctListings(candidates) && ListsTier(w, modified, candidates)
    requires var start := Start(TargetBuckets(cfg, candidates));
             && IsRun(plan, start, ls) && FaithfulRun(plan, ArchiveAnswers(cfg, w), start, ls)
             && Run(plan, start, ls).phase.Returned?
    ensures var start := Start(TargetBuckets(cfg, candidates));
            var local' := TierAfter(plan, start, ls, w.local);
            && (forall x :: x in local' <==> x in w.local && !Expired(plan, cfg, w, modified, candidates, x))
            && (forall x :: x in local' ==> local'[x] == w.local[x])
            && (forall x :: x in w.local && Expired(plan, cfg, w, modified, candidates, x) ==>
                  Run(plan, start, ls).removed[x] == 1)
  {
    var start := Start(TargetBuckets(cfg, candidates));
    forall x {
      TierTellsHistory(plan, start, ls, w.local, x);
    }
    forall x | x in w.local {
      ExpiredIsRemoved(plan, cfg, w, modified, candidates, ls, x);
    }
  }

  /** A busy worker as an actor on the tiers. */
  function Actor(plan: Plan, bucket: string, worker: Worker): Proc
    requires worker.Holding? || worker.Removing?
  {
    match worker
    case Holding(o) => SweepVerify(Loc(bucket, o.key), o.size, plan.dryRun)
    case Removing(o) => SweepRemove(Loc(bucket, o.key), o.size)
  }

  /** What the archive or local storage answers to a worker's call. */
  predicate AnswersCall(cfg: Config, w: World, s: Sweep, l: Label, call: Call)
    requires s.phase.Sweeping? && (l.Answer? || l.Remove?)
    requires l.i < |s.phase.workers| && (s.phase.workers[l.i].Holding? || s.phase.workers[l.i].Removing?)
  {
    var o := s.phase.workers[l.i].o;
    if l.Answer? then l.reason == Verify(cfg, w, Loc(s.phase.bucket, o.key), o.size, call) else l.ok == call.ok
  }

  /** Each step of a worker is that actor's step on the tiers, and when it is done
      its result is what gets counted. */
  lemma WorkersAreActors(plan: Plan, cfg: Config, w: World, s: Sweep, l: Label, call: Call)
    requires Enabled(plan, s, l) && (l.Answer? || l.Remove?) && AnswersCall(cfg, w, s, l, call)
    ensures var worker, s' := s.phase.workers[l.i], Next(plan, s, l);
            var worker' := s'.phase.workers[l.i];
            var (p', w') := Step(cfg, Actor(plan, s.phase.bucket, worker), w, call);
            && (worker'.Removing? ==> p' == Actor(plan, s.phase.bucket, worker') && s'.count == s.count)
            && (!worker'.Removing? ==>
                  worker'.Idle? && p'.Finished? && s'.count == CountProcessed(s.count, p'.res))
            && ((l.Remove? ==> (l.ok <==> !call.done.Nothing?)) ==>
                  w' == w.(local := TierAfterStep(s, l, w.local)))
            && s'.removed - s.removed ==
                 if p' == Finish(SweptAway, worker.o.size) then multiset{Loc(s.phase.bucket, worker.o.key)}
                 else multiset{}
  {
  }

  /** A dry run reports the numbers a live pass would and removes nothing. */
  lemma DryRunForecastsLiveRun(plan: Plan, ans: Answers, buckets: seq<Bucket>, dry: seq<Label>, live: seq<Label>)
    requires !plan.dryRun
    requires IsRun(plan, Start(buckets), live) && FaithfulRun(plan, ans, Start(buckets), live)
    requires Run(plan, Start(buckets), live).phase.Returned?
    requires IsRun(plan.(dryRun := true), Start(buckets), dry)
    requires FaithfulRun(plan.(dryRun := true), ans, Start(buckets), dry)
    requires Run(plan.(dryRun := true), Start(buckets), dry).phase.Returned?
    ensures Run(plan.(dryRun := true), Start(buckets), dry).count == Run(plan, Start(buckets), live).count
    ensures Run(plan.(dryRun := true), Start(buckets), dry).removed == multiset{}
  {
    var dryPlan := plan.(dryRun := true);
    var s, s' := Run(plan, Start(buckets), live), Run(dryPlan, Start(buckets), dry);
    forall obs: Observable | !obs.Removals? ensures Observe(s', obs) == Observe(s, obs) {
      PassIsAFilter(plan, ans, obs, buckets, live);
      PassIsAFilter(dryPlan, ans, obs, buckets, dry);
      ForecastsAgree(plan, ans, obs, buckets);
    }
    assert Observe(s', Scanned) == Observe(s, Scanned) && Observe(s', Eligible) == Observe(s, Eligible);
    assert Observe(s', Deleted) == Observe(s, Deleted) && Observe(s', BytesFreed) == Observe(s, BytesFreed);
    assert Observe(s', NotArchived) == Observe(s, NotArchived) && Observe(s', SizeMismatch) == Observe(s, SizeMismatch);
    assert Observe(s', Errors) == Observe(s, Errors);
    CountersAreConserved(dryPlan, Start(buckets), dry);
  }

  lemma ForecastsAgree(plan: Plan, ans: Answers, obs: Observable, buckets: seq<Bucket>)
    requires !obs.Removals?
    ensures Expected(plan.(dryRun := true), ans, obs, buckets) == Expected(plan, ans, obs, buckets)
  {
    var dryPlan := plan.(dryRun := true);
    forall b: Bucket ensures BucketAmount(dryPlan, ans, obs)(b) == BucketAmount(plan, ans, obs)(b) {
      SumSame(b.listing, EntryAmount(dryPlan, ans, obs, b.name), EntryAmount(plan, ans, obs, b.name));
    }
    SumSame(buckets, BucketAmount(dryPlan, ans, obs), BucketAmount(plan, ans, obs));
  }
}
