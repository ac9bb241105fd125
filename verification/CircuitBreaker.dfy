/** The circuit breaker (pkg/circuitbreaker): its mutex-guarded methods, and every
    interleaving of the calls that run through it. */
module CircuitBreaking {
  import opened Sums

  datatype State = Closed | Open | HalfOpen

  datatype Settings = Settings(failureThreshold: int, successThreshold: int, timeout: int, maxConcurrent: int)

  datatype Breaker = Breaker(state: State, failureCount: int, successCount: int, lastChange: int, active: int)

  datatype Admission = Admitted | CircuitOpen | TooManyRequests

  // ----- The methods as functions ------------------------------------------------------

  function SetState(b: Breaker, state: State, now: int): Breaker {
    b.(state := state, lastChange := now, failureCount := 0, successCount := 0)
  }

  /** `now` is read on entry, `later` when the state is changed. */
  function BeforeExecute(cfg: Settings, b: Breaker, now: int, later: int): (Admission, Breaker) {
    if b.state.Open? && now - b.lastChange < cfg.timeout then (CircuitOpen, b)
    else
      var b' := if b.state.Open? then SetState(b, HalfOpen, later) else b;
      if b'.active >= cfg.maxConcurrent then (TooManyRequests, b') else (Admitted, b'.(active := b'.active + 1))
  }

  function HandleResult(cfg: Settings, b: Breaker, ok: bool, now: int): Breaker {
    match (b.state, ok)
    case (Closed, true) => b.(failureCount := 0)
    case (Closed, false) =>
      if b.failureCount + 1 >= cfg.failureThreshold then SetState(b, Open, now)
      else b.(failureCount := b.failureCount + 1)
    case (HalfOpen, true) =>
      if b.successCount + 1 >= cfg.successThreshold then SetState(b, Closed, now)
      else b.(successCount := b.successCount + 1)
    case (HalfOpen, false) => SetState(b, Open, now)
    case (Open, _) => b
  }

  class CircuitBreaker {
    const cfg: Settings
    var state: State
    var failureCount: int
    var successCount: int
    var lastStateChangeTime: int
    var activeRequests: int

    constructor (cfg: Settings, now: int)
      ensures this.cfg == cfg && View() == Breaker(Closed, 0, 0, now, 0)
    {
      this.cfg := cfg;
      state, failureCount, successCount := Closed, 0, 0;
      lastStateChangeTime, activeRequests := now, 0;
    }

    function View(): Breaker
      reads this
    {
      Breaker(state, failureCount, successCount, lastStateChangeTime, activeRequests)
    }

    method SetStateAt(newState: State, now: int)
      modifies this
      ensures View() == SetState(old(View()), newState, now)
    {
      state := newState;
      lastStateChangeTime := now;
      failureCount := 0;
      successCount := 0;
    }

    method Before(now: int, later: int) returns (answer: Admission)
      modifies this
      ensures (answer, View()) == BeforeExecute(cfg, old(View()), now, later)
    {
      match state {
        case Open =>
          if now - lastStateChangeTime >= cfg.timeout {
            SetStateAt(HalfOpen, later);
          } else {
            return CircuitOpen;
          }
        case HalfOpen =>
          if activeRequests >= cfg.maxConcurrent {
            return TooManyRequests;
          }
        case Closed =>
      }
      if activeRequests >= cfg.maxConcurrent {
        return TooManyRequests;
      }
      activeRequests := activeRequests + 1;
      return Admitted;
    }

    method AfterExecute()
      modifies this
      ensures View() == old(View()).(active := old(activeRequests) - 1)
    {
      activeRequests := activeRequests - 1;
    }

    method Handle(ok: bool, now: int)
      modifies this
      ensures View() == HandleResult(cfg, old(View()), ok, now)
    {
      if ok {
        OnSuccess(now);
      } else {
        OnFailure(now);
      }
    }

    method OnSuccess(now: int)
      modifies this
      ensures View() == HandleResult(cfg, old(View()), true, now)
    {
      match state {
        case Closed =>
          failureCount := 0;
        case HalfOpen =>
          successCount := successCount + 1;
          if successCount >= cfg.successThreshold {
            SetStateAt(Closed, now);
          }
        case Open =>
      }
    }

    method OnFailure(now: int)
      modifies this
      ensures View() == HandleResult(cfg, old(View()), false, now)
    {
      match state {
        case Closed =>
          failureCount := failureCount + 1;
          if failureCount >= cfg.failureThreshold {
            SetStateAt(Open, now);
          }
        case HalfOpen =>
          SetStateAt(Open, now);
        case Open =>
      }
    }
  }

  // ----- Every interleaving --------------------------------------------------------------

  /** One `Execute`: refused, running its function, done with `handleResult` but
      not yet with `afterExecute`, or over. */
  datatype Execution = Refused(why: Admission) | Running | Reported | Over

  /** `recent` is history: the results recorded since the last state change. */
  datatype System = System(breaker: Breaker, executions: seq<Execution>, clock: int, recent: seq<bool>)

  datatype Event =
    | Call(now: int, later: int)
    | Result(i: nat, ok: bool, now: int)
    | Finish(i: nat)                      // also after a panic, which reports no result

  predicate Enabled(s: System, e: Event) {
    match e
    case Call(now, later) => s.clock <= now <= later
    case Result(i, _, now) => i < |s.executions| && s.executions[i].Running? && s.clock <= now
    case Finish(i) => i < |s.executions| && (s.executions[i].Running? || s.executions[i].Reported?)
  }

  function Next(cfg: Settings, s: System, e: Event): System
    requires Enabled(s, e)
  {
    match e
    case Call(now, later) =>
      var (answer, b') := BeforeExecute(cfg, s.breaker, now, later);
      System(b', s.executions + [if answer == Admitted then Running else Refused(answer)], later,
             if b'.state != s.breaker.state then [] else s.recent)
    case Result(i, ok, now) =>
      var b' := HandleResult(cfg, s.breaker, ok, now);
      System(b', s.executions[i := Reported], now,
             if b'.state != s.breaker.state then [] else if s.breaker.state.Open? then s.recent else s.recent + [ok])
    case Finish(i) =>
      s.(breaker := s.breaker.(active := s.breaker.active - 1), executions := s.executions[i := Over])
  }

  ghost predicate IsRun(cfg: Settings, s: System, es: seq<Event>)
    decreases |es|
  {
    es == [] || (Enabled(s, es[0]) && IsRun(cfg, Next(cfg, s, es[0]), es[1..]))
  }

  function Run(cfg: Settings, s: System, es: seq<Event>): System
    requires IsRun(cfg, s, es)
    decreases |es|
  {
    if es == [] then s else Run(cfg, Next(cfg, s, es[0]), es[1..])
  }

  function Start(now: int): System { System(Breaker(Closed, 0, 0, now, 0), [], now, []) }

  // ----- History ----------------------------------------------------------------------------

  /** How many failures a history ends with. */
  function TrailingFailures(results: seq<bool>): nat {
    if results == [] || results[|results| - 1] then 0 else 1 + TrailingFailures(results[..|results| - 1])
  }

  lemma {:induction false} TrailingFailuresMeaning(results: seq<bool>, n: nat)
    ensures n <= TrailingFailures(results) <==>
              n <= |results| && forall j :: |results| - n <= j < |results| ==> !results[j]
    decreases |results|
  {
    if n > 0 && results != [] && !results[|results| - 1] {
      var init := results[..|results| - 1];
      TrailingFailuresMeaning(init, n - 1);
      assert forall j :: 0 <= j < |init| ==> init[j] == results[j];
    }
  }

  function Unfinished(): Execution -> nat { (x: Execution) => if x.Running? || x.Reported? then 1 else 0 }

  ghost predicate Invariant(cfg: Settings, s: System) {
    && s.breaker.active == Sum(s.executions, Unfinished())
    && (s.breaker.active == 0 || s.breaker.active <= cfg.maxConcurrent)
    && s.breaker.lastChange <= s.clock
    && match s.breaker.state
       case Closed =>
         s.breaker.failureCount == TrailingFailures(s.recent) < cfg.failureThreshold && s.breaker.successCount == 0
       case HalfOpen =>
         && s.breaker.failureCount == 0 && s.breaker.successCount == |s.recent| < cfg.successThreshold
         && false !in s.recent
       case Open =>
         s.breaker.failureCount == 0 && s.breaker.successCount == 0 && s.recent == []
  }

  predicate Sensible(cfg: Settings) { cfg.failureThreshold >= 1 && cfg.successThreshold >= 1 }

  lemma NextKeepsInvariant(cfg: Settings, s: System, e: Event)
    requires Sensible(cfg) && Invariant(cfg, s) && Enabled(s, e)
    ensures Invariant(cfg, Next(cfg, s, e))
  {
    var s' := Next(cfg, s, e);
    match e
    case Call(_, _) => SumAppend(s.executions, s'.executions[|s.executions|], Unfinished());
    case Result(i, ok, _) =>
      SumUpdate(s.executions, i, Reported, Unfinished());
      assert (s.recent + [ok])[..|s.recent|] == s.recent;
    case Finish(i) => SumUpdate(s.executions, i, Over, Unfinished());
  }

  /** In every interleaving the counters are the current run of failures (closed)
      or of successes (half-open) since the last state change, below their
      thresholds, and `activeRequests` counts the admitted, unfinished calls
      within 0 and the limit. */
  lemma {:induction false} CountersTellHistory(cfg: Settings, s: System, es: seq<Event>)
    requires Sensible(cfg) && Invariant(cfg, s) && IsRun(cfg, s, es)
    ensures Invariant(cfg, Run(cfg, s, es))
    decreases |es|
  {
    if es != [] {
      NextKeepsInvariant(cfg, s, es[0]);
      CountersTellHistory(cfg, Next(cfg, s, es[0]), es[1..]);
    }
  }

  /** The last `n` of `results` exist and satisfy `ok == wanted`. */
  predicate EndsWith(results: seq<bool>, n: int, wanted: bool) {
    0 <= n <= |results| && forall j :: |results| - n <= j < |results| ==> results[j] == wanted
  }

  /** When a reported result changes the state: closed opens on the
      failureThreshold-th consecutive failure and never else; half-open opens on
      any failure and closes after successThreshold results, all successes; open
      ignores late results. */
  lemma ResultsMoveTheState(cfg: Settings, start: int, es: seq<Event>, i: nat, ok: bool, now: int)
    requires Sensible(cfg) && IsRun(cfg, Start(start), es) && Enabled(Run(cfg, Start(start), es), Result(i, ok, now))
    ensures var s := Run(cfg, Start(start), es);
            var seen := s.recent + [ok];
            var state' := Next(cfg, s, Result(i, ok, now)).breaker.state;
            match s.breaker.state
            case Closed => state' == if EndsWith(seen, cfg.failureThreshold, false) then Open else Closed
            case HalfOpen =>
              state' == if !ok then Open
                        else if |seen| == cfg.successThreshold && EndsWith(seen, |seen|, true) then Closed
                        else HalfOpen
            case Open => Next(cfg, s, Result(i, ok, now)).breaker == s.breaker
  {
    CountersTellHistory(cfg, Start(start), es);
    var s := Run(cfg, Start(start), es);
    var seen := s.recent + [ok];
    assert seen[..|s.recent|] == s.recent;
    TrailingFailuresMeaning(seen, cfg.failureThreshold);
    TrailingFailuresMeaning(seen, TrailingFailures(seen));
  }

  /** Every state change restarts the clock, and nothing else does. */
  lemma StateChangesAreStamped(cfg: Settings, s: System, i: nat, ok: bool, now: int)
    requires Enabled(s, Result(i, ok, now))
    ensures var b, b' := s.breaker, Next(cfg, s, Result(i, ok, now)).breaker;
            b'.lastChange == if b'.state != b.state then now else b.lastChange
  {
  }

  // ----- Admission ----------------------------------------------------------------------------

  lemma {:induction false} ActiveAreUnfinished(cfg: Settings, s: System, es: seq<Event>)
    requires IsRun(cfg, s, es) && s.breaker.active == Sum(s.executions, Unfinished())
    ensures Run(cfg, s, es).breaker.active == Sum(Run(cfg, s, es).executions, Unfinished())
    decreases |es|
  {
    if es != [] {
      var s' := Next(cfg, s, es[0]);
      match es[0] {
        case Call(_, _) => SumAppend(s.executions, s'.executions[|s.executions|], Unfinished());
        case Result(i, _, _) => SumUpdate(s.executions, i, Reported, Unfinished());
        case Finish(i) => SumUpdate(s.executions, i, Over, Unfinished());
      }
      ActiveAreUnfinished(cfg, s', es[1..]);
    }
  }

  /** Exactly when a call runs, in every reachable state and for any settings: the
      breaker is not open within its timeout, and fewer than the limit of admitted
      calls are unfinished. Otherwise the reason is the first of these that fails. A
      call changes the state only by finding an open breaker past its timeout. */
  lemma AdmissionExactly(cfg: Settings, start: int, es: seq<Event>, now: int, later: int)
    requires IsRun(cfg, Start(start), es) && Enabled(Run(cfg, Start(start), es), Call(now, later))
    ensures var s := Run(cfg, Start(start), es);
            var s' := Next(cfg, s, Call(now, later));
            var tripped := s.breaker.state.Open? && now < s.breaker.lastChange + cfg.timeout;
            var room := Sum(s.executions, Unfinished()) < cfg.maxConcurrent;
            && |s'.executions| == |s.executions| + 1 && s.executions <= s'.executions
            && (s'.executions[|s.executions|] == Running <==> !tripped && room)
            && (s'.executions[|s.executions|] == Refused(CircuitOpen) <==> tripped)
            && (s'.executions[|s.executions|] == Refused(TooManyRequests) <==> !tripped && !room)
            && (if s.breaker.state.Open? && !tripped
                then s'.breaker.state == HalfOpen && s'.breaker.lastChange == later
                else s'.breaker.state == s.breaker.state && s'.breaker.lastChange == s.breaker.lastChange)
  {
    ActiveAreUnfinished(cfg, Start(start), es);
  }

  /** From a trip until the timeout has passed nothing is admitted and nothing,
      late results included, changes the state or the counters. */
  lemma {:induction false} OpenAdmitsNothing(cfg: Settings, s: System, es: seq<Event>)
    requires s.breaker.state.Open? && IsRun(cfg, s, es)
    requires forall e :: e in es && e.Call? ==> e.now < s.breaker.lastChange + cfg.timeout
    ensures var s' := Run(cfg, s, es);
            && s'.breaker == s.breaker.(active := s'.breaker.active)
            && s'.breaker.active <= s.breaker.active
            && |s'.executions| >= |s.executions|
            && forall k :: |s.executions| <= k < |s'.executions| ==> s'.executions[k] == Refused(CircuitOpen)
    decreases |es|
  {
    if es != [] {
      assert es[0] in es;
      var next := Next(cfg, s, es[0]);
      OpenAdmitsNothing(cfg, next, es[1..]);
      if es[0].Call? {
        assert next.executions[|s.executions|] == Refused(CircuitOpen);
        RefusedStaysRefused(cfg, next, es[1..], |s.executions|);
      }
    }
  }

  lemma {:induction false} RefusedStaysRefused(cfg: Settings, s: System, es: seq<Event>, k: nat)
    requires IsRun(cfg, s, es) && k < |s.executions| && s.executions[k].Refused?
    ensures k < |Run(cfg, s, es).executions| && Run(cfg, s, es).executions[k] == s.executions[k]
    decreases |es|
  {
    if es != [] {
      RefusedStaysRefused(cfg, Next(cfg, s, es[0]), es[1..], k);
    }
  }

  // ----- Recovery ------------------------------------------------------------------------------

  lemma {:induction false} RunAppend(cfg: Settings, s: System, a: seq<Event>, b: seq<Event>)
    requires IsRun(cfg, s, a) && IsRun(cfg, Run(cfg, s, a), b)
    ensures IsRun(cfg, s, a + b) && Run(cfg, s, a + b) == Run(cfg, Run(cfg, s, a), b)
    decreases |a|
  {
    if a == [] {
      assert a + b == b;
    } else {
      assert (a + b)[0] == a[0] && (a + b)[1..] == a[1..] + b;
      RunAppend(cfg, Next(cfg, s, a[0]), a[1..], b);
    }
  }

  /** One call at `t`, its result and its end, with nothing in between. */
  function Probe(i: nat, ok: bool, t: int): seq<Event> { [Call(t, t), Result(i, ok, t), Finish(i)] }

  lemma ProbeRuns(cfg: Settings, s: System, ok: bool, t: int)
    requires s.clock <= t && BeforeExecute(cfg, s.breaker, t, t).0 == Admitted
    ensures var probe := Probe(|s.executions|, ok, t);
            IsRun(cfg, s, probe) &&
            var s' := Run(cfg, s, probe);
            && s'.breaker ==
                 HandleResult(cfg, BeforeExecute(cfg, s.breaker, t, t).1, ok, t).(active := s.breaker.active)
            && |s'.executions| == |s.executions| + 1 && s'.clock == t
  {
    var i := |s.executions|;
    var s1 := Next(cfg, s, Call(t, t));
    assert s1.executions == s.executions + [Running];
    var s2 := Next(cfg, s1, Result(i, ok, t));
    assert s2.executions[i] == Reported;
    var s3 := Next(cfg, s2, Finish(i));
    var probe := Probe(i, ok, t);
    assert probe[1..] == [Result(i, ok, t), Finish(i)];
    assert probe[1..][1..] == [Finish(i)] && probe[1..][1..][1..] == [];
    assert IsRun(cfg, s3, []) && Run(cfg, s3, []) == s3;
    assert IsRun(cfg, s2, [Finish(i)]) && Run(cfg, s2, [Finish(i)]) == s3;
    assert IsRun(cfg, s1, probe[1..]) && Run(cfg, s1, probe[1..]) == s3;
  }

  /** `n` successful calls one after another, call k at `at(k)`. */
  function Successes(first: nat, n: nat, at: nat -> int): seq<Event> {
    if n == 0 then [] else Successes(first, n - 1, at) + Probe(first + n - 1, true, at(n - 1))
  }

  /** Tripped, idle, and its timeout over when the first call comes. */
  ghost predicate ReadyToRecover(cfg: Settings, s: System, at: nat -> int) {
    && Sensible(cfg) && cfg.maxConcurrent >= 1
    && s.breaker.state.Open? && s.breaker.active == 0 && s.breaker.failureCount == 0
    && s.clock <= at(0) && s.breaker.lastChange + cfg.timeout <= at(0)
    && forall j: nat, k: nat :: j <= k ==> at(j) <= at(k)
  }

  /** After the timeout an idle breaker recovers: it is half-open and counting until
      successThreshold calls have succeeded, and closed from then on. */
  lemma {:induction false} SuccessesCloseTheBreaker(cfg: Settings, s: System, at: nat -> int, n: nat)
    requires ReadyToRecover(cfg, s, at) && n <= cfg.successThreshold
    ensures var es := Successes(|s.executions|, n, at);
            IsRun(cfg, s, es) &&
            var s' := Run(cfg, s, es);
            && |s'.executions| == |s.executions| + n && s'.clock <= at(n) && s'.breaker.active == 0
            && (n == 0 ==> s' == s)
            && (0 < n < cfg.successThreshold ==>
                  s'.breaker.state.HalfOpen? && s'.breaker.successCount == n && s'.breaker.failureCount == 0)
            && (n == cfg.successThreshold ==> s'.breaker == Breaker(Closed, 0, 0, at(n - 1), 0))
  {
    if n > 0 {
      SuccessesCloseTheBreaker(cfg, s, at, n - 1);
      var es := Successes(|s.executions|, n - 1, at);
      var before := Run(cfg, s, es);
      ProbeRuns(cfg, before, true, at(n - 1));
      RunAppend(cfg, s, es, Probe(|before.executions|, true, at(n - 1)));
      assert at(n - 1) <= at(n);
    }
  }

  lemma FailedProbe(cfg: Settings, b: Breaker, t: int)
    requires cfg.maxConcurrent >= 1 && b.active == 0
    requires b.state.HalfOpen? || (b.state.Open? && b.lastChange + cfg.timeout <= t)
    ensures BeforeExecute(cfg, b, t, t).0 == Admitted
    ensures HandleResult(cfg, BeforeExecute(cfg, b, t, t).1, false, t).(active := 0) == Breaker(Open, 0, 0, t, 0)
  {
  }

  /** Until then one failure opens it again, and the timeout starts anew. */
  lemma OneFailureReopensTheBreaker(cfg: Settings, s: System, at: nat -> int, n: nat)
    requires ReadyToRecover(cfg, s, at) && n < cfg.successThreshold
    ensures IsRun(cfg, s, Successes(|s.executions|, n, at))
    ensures var before := Run(cfg, s, Successes(|s.executions|, n, at));
            var probe := Probe(|before.executions|, false, at(n));
            IsRun(cfg, before, probe) && Run(cfg, before, probe).breaker == Breaker(Open, 0, 0, at(n), 0)
  {
    SuccessesCloseTheBreaker(cfg, s, at, n);
    var before := Run(cfg, s, Successes(|s.executions|, n, at));
    assert at(0) <= at(n);
    FailedProbe(cfg, before.breaker, at(n));
    ProbeRuns(cfg, before, false, at(n));
  }
}
