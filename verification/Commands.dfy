/** The `backfill` and `restore` commands in apply mode: what their listing loops
    feed to the workers, and what a worker does with one object. */
module Commands {
  import opened KeyMapping
  import opened Tiers
  import opened Tiering
  import opened Answers
  import opened Sums

  datatype Stats = Stats(scanned: nat, moved: nat, skipped: nat, failed: nat, bytes: nat)

  function CountBackfill(st: Stats, res: TierResult, size: nat): Stats {
    match res.outcome
    case ArchivedKept => st.(moved := st.moved + 1, bytes := st.bytes + size)
    case AlreadyArchived => st.(skipped := st.skipped + 1)
    case _ => st.(failed := st.failed + 1)
  }

  function CountRestore(st: Stats, res: TierResult): Stats {
    match res.outcome
    case Restored => st.(moved := st.moved + 1, bytes := st.bytes + res.size)
    case AlreadyLocal => st.(skipped := st.skipped + 1)
    case _ => st.(failed := st.failed + 1)
  }

  /** One object of a backfill. */
  function BackfillOne(cfg: Config, bucket: string, obj: Item, calls: nat -> Call, w: World, st: Stats)
    : (World, Stats)
  {
    var (res, w') := Solo(cfg, ArchiveKnownEntry(cfg, Loc(bucket, obj.key), obj.size, false), w, calls, 0);
    (w', CountBackfill(st, res, obj.size))
  }

  function RestoreOne(cfg: Config, bucket: string, it: Item, calls: nat -> Call, w: World, st: Stats)
    : (World, Stats)
  {
    var (res, w') := Solo(cfg, RestoreEntry(cfg, Loc(bucket, it.key), it.size), w, calls, 0);
    (w', CountRestore(st, res))
  }

  /** The counters a backfill reports when its workers are done. Their increments
      are atomic and commute, so the order of the workers does not matter. */
  function TallyBackfill(procs: seq<Proc>): Stats {
    if procs == [] then Stats(0, 0, 0, 0, 0)
    else
      var st, p := TallyBackfill(procs[..|procs| - 1]), procs[|procs| - 1];
      var st' := st.(scanned := st.scanned + 1);
      if p.Finished? then CountBackfill(st', p.res, p.res.size) else st'
  }

  function TallyRestore(procs: seq<Proc>): Stats {
    if procs == [] then Stats(0, 0, 0, 0, 0)
    else
      var st, p := TallyRestore(procs[..|procs| - 1]), procs[|procs| - 1];
      var st' := st.(scanned := st.scanned + 1);
      if p.Finished? then CountRestore(st', p.res) else st'
  }

  function Answered(outcome: Outcome): Proc -> nat { (p: Proc) => if p.Finished? && p.res.outcome == outcome then 1
    else 0 }

  function BytesOf(outcome: Outcome): Proc -> nat {
    (p: Proc) => if p.Finished? && p.res.outcome == outcome then p.res.size else 0
  }

  /** Whatever the workers met: uploaded are those that answered so, with their
      bytes, skipped those that answered already archived, and all others failed. */
  lemma {:induction false} BackfillTally(procs: seq<Proc>)
    requires forall i :: 0 <= i < |procs| ==> procs[i].Finished?
    ensures var st := TallyBackfill(procs);
            && st.scanned == |procs| == st.moved + st.skipped + st.failed
            && st.moved == Sum(procs, Answered(ArchivedKept)) && st.bytes == Sum(procs, BytesOf(ArchivedKept))
            && st.skipped == Sum(procs, Answered(AlreadyArchived))
    decreases |procs|
  {
    if procs != [] {
      BackfillTally(procs[..|procs| - 1]);
      SumLast(procs, Answered(ArchivedKept));
      SumLast(procs, BytesOf(ArchivedKept));
      SumLast(procs, Answered(AlreadyArchived));
    }
  }

  lemma {:induction false} RestoreTally(procs: seq<Proc>)
    requires forall i :: 0 <= i < |procs| ==> procs[i].Finished?
    ensures var st := TallyRestore(procs);
            && st.scanned == |procs| == st.moved + st.skipped + st.failed
            && st.moved == Sum(procs, Answered(Restored)) && st.bytes == Sum(procs, BytesOf(Restored))
            && st.skipped == Sum(procs, Answered(AlreadyLocal))
    decreases |procs|
  {
    if procs != [] {
      RestoreTally(procs[..|procs| - 1]);
      SumLast(procs, Answered(Restored));
      SumLast(procs, BytesOf(Restored));
      SumLast(procs, Answered(AlreadyLocal));
    }
  }

  /** One object of a backfill, whatever its calls do: local storage is never
      touched, exactly one of uploaded and failed goes up, and uploaded only when
      the archive has the object at its size. */
  lemma BackfillOneAnswers(cfg: Config, bucket: string, obj: Item, calls: nat -> Call, w: World, st: Stats)
    ensures var (w', st') := BackfillOne(cfg, bucket, obj, calls, w, st);
            && w'.local == w.local && st'.scanned == st.scanned && st'.skipped == st.skipped
            && (if st'.moved == st.moved + 1
                then st'.failed == st.failed && st'.bytes == st.bytes + obj.size
                     && StoredSize(cfg, w', Loc(bucket, obj.key), obj.size)
                else st'.moved == st.moved && st'.failed == st.failed + 1 && st'.bytes == st.bytes)
  {
    ArchiveKnownAnswers(cfg, Loc(bucket, obj.key), obj.size, false, w, calls, 0);
  }

  /** One item of a restore, whatever its calls do: the archive is never touched, and
      exactly one counter goes up: skipped when a local copy of the size was found,
      restored when the write reported success, else failed. */
  lemma RestoreOneAnswers(cfg: Config, bucket: string, it: Item, calls: nat -> Call, w: World, st: Stats)
    ensures var (w', st') := RestoreOne(cfg, bucket, it, calls, w, st);
            var loc := Loc(bucket, it.key);
            var kept := cfg.enabled && calls(0).ok && loc in w.local && |w.local[loc]| == it.size;
            var done := cfg.enabled && !kept && calls(1).ok && cfg.PlaceOf(loc) in w.archive && calls(2).ok;
            && w'.archive == w.archive && st'.scanned == st.scanned
            && st'.skipped == st.skipped + (if kept then 1 else 0)
            && st'.moved == st.moved + (if done then 1 else 0)
            && st'.failed == st.failed + (if kept || done then 0 else 1)
            && st'.bytes == st.bytes +
                 (if done && calls(1).sized then |w.archive[cfg.PlaceOf(loc)]| else 0)
  {
    RestoreAnswers(cfg, Loc(bucket, it.key), it.size, w, calls);
  }

  // ----- The listing loops -------------------------------------------------------------

  /** What the listing of local storage delivers. */
  datatype ListEntry = Listed(obj: Item) | ListError

  function Objects(entries: seq<ListEntry>): (objs: seq<Item>)
    ensures |objs| <= |entries|
  {
    if entries == [] then []
    else
      var last := entries[|entries| - 1];
      Objects(entries[..|entries| - 1]) + if last.Listed? then [last.obj] else []
  }

  /** The atomic counters of one command. */
  class Counters {
    var scanned: nat
    var moved: nat
    var skipped: nat
    var failed: nat
    var bytes: nat

    constructor ()
      ensures View() == Stats(0, 0, 0, 0, 0)
    {
      scanned, moved, skipped, failed, bytes := 0, 0, 0, 0, 0;
    }

    function View(): Stats
      reads this
    {
      Stats(scanned, moved, skipped, failed, bytes)
    }

    /** The listing loop of a backfill: it looks at the first `n` entries, queues
        their objects in order and counts their errors. It leaves off early only
        when interrupted before entry `stop`, or at an object once the limit is
        reached. The workers only ever see what it queued. */
    method FeedBackfill(entries: seq<ListEntry>, limit: nat, stop: nat) returns (queued: seq<Item>, n: nat)
      modifies this
      ensures n <= |entries| && queued == Objects(entries[..n])
      ensures View() ==
                old(View()).(scanned := old(scanned) + |queued|, failed := old(failed) + n - |queued|)
      ensures n <= stop
      ensures limit > 0 && old(scanned) <= limit ==> scanned <= limit
      ensures n < |entries| && n < stop ==> limit > 0 && scanned >= limit && entries[n].Listed?
    {
      queued := [];
      n := 0;
      while n < |entries|
        invariant n <= |entries| && n <= stop && queued == Objects(entries[..n])
        invariant View() ==
                    old(View()).(scanned := old(scanned) + |queued|, failed := old(failed) + n - |queued|)
        invariant limit > 0 && old(scanned) <= limit ==> scanned <= limit
      {
        if n >= stop {
          break;
        }
        assert entries[..n + 1][..n] == entries[..n];
        match entries[n] {
          case ListError =>
            failed := failed + 1;
          case Listed(obj) =>
            if limit > 0 && scanned >= limit {
              break;
            }
            scanned := scanned + 1;
            queued := queued + [obj];
        }
        n := n + 1;
      }
    }

    /** The walk of a restore: nothing is queued unless the local bucket is ready,
        and then the items of the walk up to an interruption or the limit. Only a
        bucket that cannot be made or a walk that breaks, without an interruption,
        is an error. */
    method FeedRestore(archive: Archive, bucket: string, listing: seq<Item>, broken: bool, ready: bool,
                       limit: nat, stop: nat, interrupted: bool)
      returns (queued: seq<Item>, ok: bool)
      modifies this
      ensures var all := Walked(listing, WalkPrefix(archive.cfg.archiveBucket, bucket));
              && queued <= all
              && (queued != [] ==> ready && archive.cfg.enabled)
              && (ready && archive.cfg.enabled && |queued| < |all| ==>
                    |queued| == stop || (limit > 0 && scanned >= limit))
      ensures |queued| <= stop && (limit > 0 && old(scanned) <= limit ==> scanned <= limit)
      ensures View() == old(View()).(scanned := old(scanned) + |queued|)
      ensures var all := Walked(listing, WalkPrefix(archive.cfg.archiveBucket, bucket));
              ok <==> ready && (interrupted || (archive.cfg.enabled && !(broken && queued == all)))
    {
      if !ready {
        return [], false;
      }
      var room := stop;
      if limit > 0 && limit < scanned + stop {
        room := if limit < scanned then 0 else limit - scanned;
      }
      var result;
      queued, result := Walk(archive.cfg.enabled, archive.cfg.archiveBucket, bucket, listing, broken, room);
      scanned := scanned + |queued|;
      ok := interrupted || result == WalkDone || result == WalkRefused;
    }

    method HandleBackfill(svc: Service, bucket: string, obj: Item, calls: nat -> Call)
      modifies this, svc.store, svc.archive
      ensures (svc.State(), View()) == BackfillOne(svc.Cfg(), bucket, obj, calls, old(svc.State()), old(View()))
      ensures svc.store.objects == old(svc.store.objects)
    {
      ghost var w, st := svc.State(), View();
      var res := svc.ArchiveKnownObject(Loc(bucket, obj.key), obj.size, false, calls, 0);
      match res.outcome {
        case ArchivedKept =>
          moved := moved + 1;
          bytes := bytes + obj.size;
        case AlreadyArchived =>
          skipped := skipped + 1;
        case _ =>
          failed := failed + 1;
      }
      BackfillOneAnswers(svc.Cfg(), bucket, obj, calls, w, st);
    }

    method HandleRestore(svc: Service, bucket: string, it: Item, calls: nat -> Call)
      modifies this, svc.store
      ensures (svc.State(), View()) == RestoreOne(svc.Cfg(), bucket, it, calls, old(svc.State()), old(View()))
    {
      var res := svc.RestoreObject(Loc(bucket, it.key), it.size, calls);
      match res.outcome {
        case Restored =>
          moved := moved + 1;
          bytes := bytes + res.size;
        case AlreadyLocal =>
          skipped := skipped + 1;
        case _ =>
          failed := failed + 1;
      }
    }
  }

  /** The objects a run queues are those listed, each as often as it is listed. */
  lemma {:induction false} ObjectsAreListed(entries: seq<ListEntry>, obj: Item)
    ensures multiset(Objects(entries))[obj] == multiset(entries)[Listed(obj)]
  {
    if entries != [] {
      var n := |entries| - 1;
      assert entries == entries[..n] + [entries[n]];
      ObjectsAreListed(entries[..n], obj);
    }
  }
}
