/** The batch processor (pkg/batch): the batching loop and the retry that narrows
    to the items that failed. */
module BatchProcessor {
  import opened Sequences

  // ----- The batching loop ---------------------------------------------------------------

  /** What the loop's select can deliver. */
  datatype Event<T> = Arrive(item: T) | Tick | ChannelClosed | Cancelled

  /** `batches` are those handed to `processBatchWithRetry`, oldest first. */
  datatype Loop<T> = Loop(batches: seq<seq<T>>, batch: seq<T>, returned: bool)

  function Flush<T>(s: Loop<T>): Loop<T> {
    if |s.batch| > 0 then s.(batches := s.batches + [s.batch], batch := []) else s
  }

  function React<T>(batchSize: int, s: Loop<T>, e: Event<T>): Loop<T> {
    if s.returned then s
    else
      match e
      case Arrive(item) =>
        var grown := s.(batch := s.batch + [item]);
        if |grown.batch| >= batchSize then Flush(grown) else grown
      case Tick => Flush(s)
      case ChannelClosed => Flush(s).(returned := true)
      case Cancelled => Flush(s).(returned := true)
  }

  function After<T>(batchSize: int, events: seq<Event<T>>): Loop<T> {
    if events == [] then Loop([], [], false)
    else React(batchSize, After(batchSize, events[..|events| - 1]), events[|events| - 1])
  }

  method ProcessBatches<T>(batchSize: int, events: seq<Event<T>>)
    returns (batches: seq<seq<T>>, batch: seq<T>, returned: bool)
    ensures Loop(batches, batch, returned) == After(batchSize, events)
  {
    batches, batch, returned := [], [], false;
    for i := 0 to |events|
      invariant Loop(batches, batch, returned) == After(batchSize, events[..i])
      invariant !returned
    {
      assert events[..i + 1][..i] == events[..i];
      match events[i] {
        case ChannelClosed =>
          if |batch| > 0 {
            batches, batch := batches + [batch], [];
          }
          returned := true;
        case Arrive(item) =>
          batch := batch + [item];
          if |batch| >= batchSize {
            batches, batch := batches + [batch], [];
          }
        case Tick =>
          if |batch| > 0 {
            batches, batch := batches + [batch], [];
          }
        case Cancelled =>
          if |batch| > 0 {
            batches, batch := batches + [batch], [];
          }
          returned := true;
      }
      if returned {
        AfterReturn(batchSize, events, i + 1);
        return;
      }
    }
    assert events[..|events|] == events;
  }

  lemma {:induction false} AfterReturn<T>(batchSize: int, events: seq<Event<T>>, i: nat)
    requires i <= |events| && After(batchSize, events[..i]).returned
    ensures After(batchSize, events) == After(batchSize, events[..i])
    decreases |events|
  {
    if i == |events| {
      assert events[..i] == events;
    } else {
      var init := events[..|events| - 1];
      assert init[..i] == events[..i];
      AfterReturn(batchSize, init, i);
    }
  }

  function Concat<T>(batches: seq<seq<T>>): seq<T> {
    if batches == [] then [] else Concat(batches[..|batches| - 1]) + batches[|batches| - 1]
  }

  /** The items the loop took from the channel before it returned. */
  function Dequeued<T>(batchSize: int, events: seq<Event<T>>): seq<T> {
    if events == [] then []
    else
      var init, e := events[..|events| - 1], events[|events| - 1];
      if e.Arrive? && !After(batchSize, init).returned then Dequeued(batchSize, init) + [e.item]
      else Dequeued(batchSize, init)
  }

  lemma FlushKeepsItems<T>(s: Loop<T>)
    ensures Concat(Flush(s).batches) + Flush(s).batch == Concat(s.batches) + s.batch
    ensures Flush(s).batch == []
  {
    if |s.batch| > 0 {
      assert (s.batches + [s.batch])[..|s.batches|] == s.batches;
    }
  }

  /** For every schedule of arrivals, ticks and shutdown: the batches and the
      partial batch are the dequeued items, in order, each in one batch. */
  lemma {:induction false} BatchesPartitionItems<T>(batchSize: int, events: seq<Event<T>>)
    ensures Concat(After(batchSize, events).batches) + After(batchSize, events).batch == Dequeued(batchSize, events)
    decreases |events|
  {
    if events != [] {
      var init, e := events[..|events| - 1], events[|events| - 1];
      BatchesPartitionItems(batchSize, init);
      var s := After(batchSize, init);
      FlushKeepsItems(s);
      if e.Arrive? && !s.returned {
        FlushKeepsItems(s.(batch := s.batch + [e.item]));
        Assoc(Concat(s.batches), s.batch, [e.item]);
      }
    }
  }

  /** Every batch has between 1 and batchSize items, and nothing dequeued is left
      unflushed once the loop returns. */
  lemma {:induction false} BatchSizes<T>(batchSize: int, events: seq<Event<T>>)
    ensures var s := After(batchSize, events);
            && (forall b :: b in s.batches ==> 1 <= |b| && (|b| == 1 || |b| <= batchSize))
            && (s.batch == [] || |s.batch| < batchSize)
            && (s.returned ==> s.batch == [])
    decreases |events|
  {
    if events != [] {
      BatchSizes(batchSize, events[..|events| - 1]);
    }
  }

  predicate Shutdown<T>(e: Event<T>) { e.ChannelClosed? || e.Cancelled? }

  /** The loop returns on shutdown and on nothing else, a tick included. */
  lemma {:induction false} ReturnsOnShutdown<T>(batchSize: int, events: seq<Event<T>>)
    ensures After(batchSize, events).returned <==> exists i :: 0 <= i < |events| && Shutdown(events[i])
    decreases |events|
  {
    if events != [] {
      var n := |events| - 1;
      ReturnsOnShutdown(batchSize, events[..n]);
      if i :| 0 <= i < |events| && Shutdown(events[i]) {
        assert i < n ==> Shutdown(events[..n][i]);
      }
    }
  }

  /** Until shutdown every arrival is dequeued, in order; afterwards nothing is. */
  lemma {:induction false} DequeuesUntilShutdown<T>(batchSize: int, events: seq<Event<T>>, e: Event<T>)
    ensures Dequeued(batchSize, events + [e]) ==
              if e.Arrive? && forall i :: 0 <= i < |events| ==> !Shutdown(events[i])
              then Dequeued(batchSize, events) + [e.item] else Dequeued(batchSize, events)
  {
    assert (events + [e])[..|events|] == events;
    ReturnsOnShutdown(batchSize, events);
  }

  /** A tick or a shutdown hands on what waits, as one batch, and never an empty
      one: afterwards the batches alone are all the dequeued items. */
  lemma TickAndShutdownFlush<T>(batchSize: int, events: seq<Event<T>>, e: Event<T>)
    requires !e.Arrive? && forall i :: 0 <= i < |events| ==> !Shutdown(events[i])
    ensures var s, s' := After(batchSize, events), After(batchSize, events + [e]);
            && s'.batch == [] && Concat(s'.batches) == Dequeued(batchSize, events)
            && s'.batches == (if s.batch == [] then s.batches else s.batches + [s.batch])
            && forall b :: b in s'.batches ==> b != []
  {
    assert (events + [e])[..|events|] == events;
    ReturnsOnShutdown(batchSize, events);
    BatchesPartitionItems(batchSize, events + [e]);
    DequeuesUntilShutdown(batchSize, events, e);
    BatchSizes(batchSize, events + [e]);
    assert Concat(After(batchSize, events + [e]).batches) + [] == Concat(After(batchSize, events + [e]).batches);
  }

  /** An arrival before shutdown joins what waits; the batch goes at once when that
      makes it full, and only then. */
  lemma ArrivalWaitsOrFills<T>(batchSize: int, events: seq<Event<T>>, item: T)
    requires forall i :: 0 <= i < |events| ==> !Shutdown(events[i])
    ensures var s, s' := After(batchSize, events), After(batchSize, events + [Arrive(item)]);
            if |s.batch| + 1 < batchSize then s'.batch == s.batch + [item] && s'.batches == s.batches
            else s'.batch == [] && s'.batches == s.batches + [s.batch + [item]]
  {
    assert (events + [Arrive(item)])[..|events|] == events;
    ReturnsOnShutdown(batchSize, events);
  }

  function Arrivals<T>(items: seq<T>): (events: seq<Event<T>>)
    ensures |events| == |items|
  {
    if items == [] then [] else Arrivals(items[..|items| - 1]) + [Arrive(items[|items| - 1])]
  }

  /** `n` items make as many full batches as they can and fewer than batchSize wait. */
  predicate FullBatches<T(==)>(batchSize: nat, s: Loop<T>, n: nat) {
    && n == |s.batches| * batchSize + |s.batch| && |s.batch| < batchSize && !s.returned
    && forall b :: b in s.batches ==> |b| == batchSize
  }

  lemma ArrivalKeepsFullBatches<T>(batchSize: nat, s: Loop<T>, n: nat, item: T)
    requires FullBatches(batchSize, s, n)
    ensures FullBatches(batchSize, React(batchSize, s, Arrive(item)), n + 1)
  {
    assert (|s.batches| + 1) * batchSize == |s.batches| * batchSize + batchSize;
  }

  /** With no tick and no shutdown a flush happens on size alone. */
  lemma {:induction false} BurstFillsBatches<T>(batchSize: nat, items: seq<T>)
    requires batchSize >= 1
    ensures FullBatches(batchSize, After(batchSize, Arrivals(items)), |items|)
    decreases |items|
  {
    if items == [] {
      assert 0 * batchSize == 0;
    } else {
      var n := |items| - 1;
      BurstFillsBatches(batchSize, items[..n]);
      assert Arrivals(items)[..n] == Arrivals(items[..n]);
      ArrivalKeepsFullBatches(batchSize, After(batchSize, Arrivals(items[..n])), n, items[n]);
    }
  }

  // ----- The retry --------------------------------------------------------------------------

  datatype Item<T> = Item(payload: T, success: bool)

  /** An item as it stood in the batch. */
  datatype Slot<T> = Slot(position: nat, value: T)

  /** A processor that returns the items it was given with their flags set:
      `succeeds(k, x)` is what it makes of `x` in round `k`. Over slots that is any
      verdict at all, equal items included. */
  type Processor<!T> = (nat, T) -> bool

  function Processed<T>(items: seq<Item<T>>, succeeds: Processor<T>, round: nat): (out: seq<Item<T>>)
    ensures |out| == |items|
    ensures forall i :: 0 <= i < |out| ==> out[i] == Item(items[i].payload, succeeds(round, items[i].payload))
  {
    seq(|items|, i requires 0 <= i < |items| => Item(items[i].payload, succeeds(round, items[i].payload)))
  }

  function Payloads<T>(items: seq<Item<T>>): (out: seq<T>)
    ensures |out| == |items|
  {
    seq(|items|, i requires 0 <= i < |items| => items[i].payload)
  }

  predicate FailedBefore<T>(succeeds: Processor<T>, x: T, round: nat) {
    forall k: nat :: k < round ==> !succeeds(k, x)
  }

  /** The payloads, in order, that failed every round before `round`. */
  function StillFailing<T>(payloads: seq<T>, succeeds: Processor<T>, round: nat): seq<T> {
    if payloads == [] then []
    else
      (if FailedBefore(succeeds, payloads[0], round) then [payloads[0]] else []) +
        StillFailing(payloads[1..], succeeds, round)
  }

  method FailedItems<T>(processed: seq<Item<T>>) returns (failed: seq<Item<T>>)
    ensures failed == OnlyFailed(processed)
  {
    failed := [];
    for i := 0 to |processed|
      invariant failed + OnlyFailed(processed[i..]) == OnlyFailed(processed)
    {
      assert processed[i..][1..] == processed[i + 1..];
      if !processed[i].success {
        Assoc(failed, [processed[i]], OnlyFailed(processed[i + 1..]));
        failed := failed + [processed[i]];
      }
    }
  }

  function OnlyFailed<T>(items: seq<Item<T>>): seq<Item<T>> {
    if items == [] then []
    else (if items[0].success then [] else [items[0]]) + OnlyFailed(items[1..])
  }

  /** One round later: the failures of what was still failing. */
  lemma {:induction false} FailuresAreNextRound<T>(payloads: seq<T>, items: seq<Item<T>>, succeeds: Processor<T>,
                                                   round: nat)
    requires Payloads(items) == StillFailing(payloads, succeeds, round)
    ensures Payloads(OnlyFailed(Processed(items, succeeds, round))) == StillFailing(payloads, succeeds, round + 1)
    decreases |payloads|
  {
    if payloads == [] {
      assert items == [];
    } else {
      var x := payloads[0];
      assert FailedBefore(succeeds, x, round + 1) <==> FailedBefore(succeeds, x, round) && !succeeds(round, x);
      if FailedBefore(succeeds, x, round) {
        assert items[0].payload == Payloads(items)[0] == x;
        assert Payloads(items[1..]) == Payloads(items)[1..] == StillFailing(payloads[1..], succeeds, round);
        assert Processed(items, succeeds, round)[1..] == Processed(items[1..], succeeds, round);
        FailuresAreNextRound(payloads[1..], items[1..], succeeds, round);
      } else {
        FailuresAreNextRound(payloads[1..], items, succeeds, round);
      }
    }
  }

  lemma {:induction false} NoFailuresLeft<T>(items: seq<Item<T>>)
    ensures OnlyFailed(items) == [] <==> forall i :: 0 <= i < |items| ==> items[i].success
  {
    if items != [] {
      NoFailuresLeft(items[1..]);
      assert forall i :: 0 < i < |items| ==> items[i] == items[1..][i - 1];
    }
  }

  /** Round k of `rounds` is exactly what failed every earlier round. */
  ghost predicate Narrowing<T>(payloads: seq<T>, succeeds: Processor<T>, rounds: seq<seq<Item<T>>>) {
    forall k :: 0 <= k < |rounds| ==> Payloads(rounds[k]) == StillFailing(payloads, succeeds, k)
  }

  /** Every one of `rounds` left a failure behind. */
  ghost predicate AllLeftFailures<T>(succeeds: Processor<T>, rounds: seq<seq<Item<T>>>) {
    forall k :: 0 <= k < |rounds| ==> OnlyFailed(Processed(rounds[k], succeeds, k)) != []
  }

  /** What holds of the retry after `rounds`: `processed` is the last answer, and
      `items` is what the next round, if there is one, will get. */
  ghost predicate Retrying<T>(batch: seq<Item<T>>, succeeds: Processor<T>, rounds: seq<seq<Item<T>>>,
                              processed: seq<Item<T>>) {
    && Narrowing(Payloads(batch), succeeds, rounds)
    && (rounds == [] ==> processed == [])
    && (rounds != [] ==> AllLeftFailures(succeeds, rounds[..|rounds| - 1]))
    && (rounds != [] ==> processed == Processed(rounds[|rounds| - 1], succeeds, |rounds| - 1))
  }

  lemma OneMoreRound<T>(batch: seq<Item<T>>, succeeds: Processor<T>, rounds: seq<seq<Item<T>>>,
                        processed: seq<Item<T>>, items: seq<Item<T>>)
    requires Retrying(batch, succeeds, rounds, processed) && (rounds != [] ==> OnlyFailed(processed) != [])
    requires Payloads(items) == StillFailing(Payloads(batch), succeeds, |rounds|)
    ensures Retrying(batch, succeeds, rounds + [items], Processed(items, succeeds, |rounds|))
  {
    assert (rounds + [items])[..|rounds|] == rounds;
    if rounds != [] {
      assert rounds == rounds[..|rounds| - 1] + [rounds[|rounds| - 1]];
    }
  }

  /** `rounds` are the batches given to the processor, one a round. Round k gets
      exactly the items that failed all earlier rounds, and the retry stops when
      none fails or after maxRetries + 1 rounds. */
  method ProcessBatchWithRetry<T>(batch: seq<Item<Slot<T>>>, succeeds: Processor<Slot<T>>, maxRetries: int)
    returns (rounds: seq<seq<Item<Slot<T>>>>, processed: seq<Item<Slot<T>>>)
    ensures |rounds| <= (if maxRetries < 0 then 0 else maxRetries + 1)
    ensures Retrying(batch, succeeds, rounds, processed)
    ensures |rounds| <= maxRetries ==> rounds != [] && forall i :: 0 <= i < |processed| ==> processed[i].success
  {
    var items := batch;
    processed := [];
    rounds := [];
    var retries := 0;
    EverythingFailsAtFirst(Payloads(batch), succeeds);
    while retries <= maxRetries
      invariant 0 <= retries == |rounds| && retries <= if maxRetries < 0 then 0 else maxRetries + 1
      invariant retries <= maxRetries ==> Payloads(items) == StillFailing(Payloads(batch), succeeds, retries)
      invariant Retrying(batch, succeeds, rounds, processed)
      invariant rounds != [] ==> OnlyFailed(processed) != []
    {
      OneMoreRound(batch, succeeds, rounds, processed, items);
      processed := Processed(items, succeeds, retries);
      rounds := rounds + [items];
      var failedItems := FailedItems(processed);
      NoFailuresLeft(processed);
      if |failedItems| == 0 {
        break;
      }
      FailuresAreNextRound(Payloads(batch), items, succeeds, retries);
      retries := retries + 1;
      if retries <= maxRetries {
        items := failedItems;
      }
    }
  }

  lemma {:induction false} EverythingFailsAtFirst<T>(payloads: seq<T>, succeeds: Processor<T>)
    ensures StillFailing(payloads, succeeds, 0) == payloads
  {
    if payloads != [] {
      EverythingFailsAtFirst(payloads[1..], succeeds);
    }
  }

  /** An item that has succeeded is in no later round, and one that has not is in
      every round there is. */
  lemma {:induction false} RoundMembership<T>(payloads: seq<T>, succeeds: Processor<T>, round: nat, x: T)
    ensures x in StillFailing(payloads, succeeds, round) <==>
              x in payloads && forall k: nat :: k < round ==> !succeeds(k, x)
  {
    if payloads != [] {
      RoundMembership(payloads[1..], succeeds, round, x);
    }
  }
}
