/** The two storage tiers, the storage calls made against them, and every actor
    of the service as a program over those calls, one call per step. */
module Tiers {
  import opened KeyMapping

  // ----- Configuration (service/archive.go) ----------------------------------

  datatype Scope = EveryBucket | Only(buckets: set<string>)

  datatype Config = Config(enabled: bool, archiveBucket: string, scope: Scope) {
    predicate InScope(bucket: string) {
      enabled && (scope.EveryBucket? || bucket in scope.buckets)
    }

    function PlaceOf(loc: Loc): Place { Resolve(archiveBucket, loc) }
  }

  // ----- The tiers and what one call does to them ----------------------------

  /** `puts` records, in order, the archive writes that had an effect. */
  datatype World = World(local: map<Loc, Bytes>, archive: map<Place, Bytes>, puts: seq<Place>)

  /** What a writing call really did, whatever it reports. */
  datatype Done = Whole | Nothing | Part(n: nat)

  /** The outside world's choice for one storage call: its effect, whether it
      reports success, and whether an archive reply carries a content length. */
  datatype Call = Call(done: Done, ok: bool, sized: bool)

  const Fine: Call := Call(Whole, true, true)
  const AllFine: nat -> Call := _ => Fine

  function Min(a: nat, b: nat): nat { if a < b then a else b }

  function ArchivePut(cfg: Config, w: World, loc: Loc, body: Bytes, call: Call): World {
    var place := cfg.PlaceOf(loc);
    match call.done
    case Whole => w.(archive := w.archive[place := body], puts := w.puts + [place])
    case Nothing => w
    case Part(n) => w.(archive := w.archive[place := body[..Min(n, |body|)]], puts := w.puts + [place])
  }

  function LocalPut(w: World, loc: Loc, body: Bytes, call: Call): World {
    if call.done.Whole? then w.(local := w.local[loc := body]) else w
  }

  function LocalRemove(w: World, loc: Loc, call: Call): World {
    if call.done.Nothing? then w else w.(local := w.local - {loc})
  }

  /** The length an archive reply reports for `body`: 0 when it carries none. */
  function Reported(body: Bytes, call: Call): (n: nat)
    ensures n <= |body|
  {
    if call.sized then |body| else 0
  }

  datatype StatAnswer = Size(n: nat) | Absent | Unreachable

  /** A reply without a content length is unproven, not zero. */
  function ArchiveStat(cfg: Config, w: World, loc: Loc, call: Call): StatAnswer {
    if !cfg.enabled || !call.ok then Unreachable
    else if cfg.PlaceOf(loc) !in w.archive then Absent
    else if !call.sized then Unreachable
    else Size(|w.archive[cfg.PlaceOf(loc)]|)
  }

  datatype VerifyReason = VerifyOK | VerifyNotArchived | VerifySizeMismatch | VerifyError

  function Verify(cfg: Config, w: World, loc: Loc, localSize: nat, call: Call): VerifyReason {
    match ArchiveStat(cfg, w, loc, call)
    case Absent => VerifyNotArchived
    case Unreachable => VerifyError
    case Size(n) => if n != localSize then VerifySizeMismatch else VerifyOK
  }

  /** The archive answers for `loc` with the local size. */
  predicate Verified(cfg: Config, w: World, loc: Loc)
    requires loc in w.local
  {
    Verify(cfg, w, loc, |w.local[loc]|, Fine) == VerifyOK
  }

  // ----- The actors as programs ----------------------------------------------

  datatype Outcome =
    | Archived | ArchivedKept | AlreadyArchived | NotInScope
    | Restored | AlreadyLocal | NotFound | Failed
    | Uploaded | UploadedNotArchived
    | SweptAway | WouldSweep | SweepKept(reason: VerifyReason)
    | Served(body: Bytes) | Interrupted | Unavailable
    | Crashed

  datatype TierResult = TierResult(outcome: Outcome, size: nat)

  /** A program counter with the locals that are live there. */
  datatype Proc =
    | Finished(res: TierResult)
      // UploadImage, UploadWithUrl, BatchUpload
    | UploadLocal(loc: Loc, content: Bytes)
    | UploadArchive(loc: Loc, content: Bytes)
      // ArchiveObject
    | ArchiveStatLocal(loc: Loc, evict: bool)
    | ArchiveConfirm(loc: Loc)
      // ArchiveKnownObject
    | KnownVerify(loc: Loc, size: nat, evict: bool)
    | KnownOpen(loc: Loc, size: nat, evict: bool)
    | KnownPut(loc: Loc, size: nat, evict: bool, content: Bytes)
    | KnownReverify(loc: Loc, size: nat, evict: bool)
    | KnownEvict(loc: Loc, size: nat)
      // backfill: the listing supplies the size
    | BackfillList(loc: Loc)
      // the retention sweep
    | SweepList(loc: Loc, dryRun: bool)
    | SweepVerify(loc: Loc, size: nat, dryRun: bool)
    | SweepRemove(loc: Loc, size: nat)
      // restore: the walk supplies the size
    | RestoreList(loc: Loc)
    | RestoreStat(loc: Loc, size: nat)
    | RestoreOpen(loc: Loc, size: nat)
    | RestorePut(loc: Loc, size: nat, content: Bytes, length: nat)
      // openObject and the stream that follows it
    | ReadStat(loc: Loc)
    | ReadLocal(loc: Loc)
    | ReadArchive(loc: Loc)

  function Finish(outcome: Outcome, size: nat): Proc { Finished(TierResult(outcome, size)) }

  function ArchiveObjectEntry(cfg: Config, loc: Loc, evict: bool): Proc {
    if !cfg.enabled then Finish(Failed, 0) else ArchiveStatLocal(loc, evict)
  }

  function ArchiveKnownEntry(cfg: Config, loc: Loc, size: nat, evict: bool): Proc {
    if !cfg.enabled then Finish(Failed, size)
    else if !cfg.InScope(loc.bucket) then Finish(NotInScope, size)
    else KnownVerify(loc, size, evict)
  }

  function AfterVerified(loc: Loc, size: nat, evict: bool): Proc {
    if evict then KnownEvict(loc, size) else Finish(ArchivedKept, size)
  }

  function RestoreEntry(cfg: Config, loc: Loc, size: nat): Proc {
    if !cfg.enabled then Finish(Failed, size) else RestoreStat(loc, size)
  }

  /** One storage call of one actor. */
  function Step(cfg: Config, p: Proc, w: World, call: Call): (Proc, World) {
    match p
    case Finished(_) => (p, w)

    case UploadLocal(loc, content) =>
      ( if !call.ok then Finish(Failed, 0)
        else if cfg.InScope(loc.bucket) then UploadArchive(loc, content)
        else Finish(Uploaded, |content|),
        LocalPut(w, loc, content, call) )
    case UploadArchive(loc, content) =>
      ( Finish(if call.ok then Uploaded else UploadedNotArchived, |content|),
        ArchivePut(cfg, w, loc, content, call) )

    case ArchiveStatLocal(loc, evict) =>
      ( if call.ok && loc in w.local then ArchiveKnownEntry(cfg, loc, |w.local[loc]|, evict)
        else ArchiveConfirm(loc),
        w )
    case ArchiveConfirm(loc) =>
      ( Finish(if ArchiveStat(cfg, w, loc, call).Size? then AlreadyArchived else NotFound, 0), w )

    case KnownVerify(loc, size, evict) =>
      ( match Verify(cfg, w, loc, size, call)
        case VerifyOK => AfterVerified(loc, size, evict)
        case VerifyError => Finish(Failed, size)
        case _ => KnownOpen(loc, size, evict),
        w )
    case KnownOpen(loc, size, evict) =>
      ( if call.ok && loc in w.local then KnownPut(loc, size, evict, w.local[loc]) else Finish(Failed, size), w )
    case KnownPut(loc, size, evict, content) =>
      ( if call.ok then KnownReverify(loc, size, evict) else Finish(Failed, size),
        ArchivePut(cfg, w, loc, content, call) )
    case KnownReverify(loc, size, evict) =>
      ( if Verify(cfg, w, loc, size, call) == VerifyOK then AfterVerified(loc, size, evict)
        else Finish(Failed, size), w )
    case KnownEvict(loc, size) =>
      ( Finish(if call.ok then Archived else Failed, size), LocalRemove(w, loc, call) )

    case BackfillList(loc) =>
      ( if call.ok && loc in w.local then ArchiveKnownEntry(cfg, loc, |w.local[loc]|, false) else Finish(Failed, 0), w )

    case SweepList(loc, dryRun) =>
      ( if call.ok && loc in w.local then SweepVerify(loc, |w.local[loc]|, dryRun) else Finish(Failed, 0), w )
    case SweepVerify(loc, size, dryRun) =>
      var reason := Verify(cfg, w, loc, size, call);
      ( if reason != VerifyOK then Finish(SweepKept(reason), size)
        else if dryRun then Finish(WouldSweep, size)
        else SweepRemove(loc, size),
        w )
    case SweepRemove(loc, size) =>
      ( Finish(if call.ok then SweptAway else Failed, size), LocalRemove(w, loc, call) )

    case RestoreList(loc) =>
      ( if call.ok && cfg.PlaceOf(loc) in w.archive then RestoreEntry(cfg, loc, |w.archive[cfg.PlaceOf(loc)]|)
        else Finish(Failed, 0),
        w )
    case RestoreStat(loc, size) =>
      ( if call.ok && loc in w.local && |w.local[loc]| == size then Finish(AlreadyLocal, size)
        else RestoreOpen(loc, size),
        w )
    case RestoreOpen(loc, size) =>
      ( if !call.ok then Finish(Failed, size)
        else if cfg.PlaceOf(loc) !in w.archive then Finish(NotFound, size)
        else
          var body := w.archive[cfg.PlaceOf(loc)];
          RestorePut(loc, size, body, Reported(body, call)),
        w )
    case RestorePut(loc, size, content, length) =>
      ( if call.ok then Finish(Restored, length) else Finish(Failed, size),
        LocalPut(w, loc, content[..Min(length, |content|)], call) )

    case ReadStat(loc) =>
      ( if call.ok && loc in w.local && |w.local[loc]| > 0 then ReadLocal(loc)
        else if cfg.enabled then ReadArchive(loc)
        else Finish(Unavailable, 0),
        w )
    case ReadLocal(loc) =>
      ( if call.ok && loc in w.local then Finish(Served(w.local[loc]), |w.local[loc]|) else Finish(Interrupted, 0), w )
    case ReadArchive(loc) =>
      ( if call.ok && cfg.PlaceOf(loc) in w.archive then
          var body := w.archive[cfg.PlaceOf(loc)];
          var length := Reported(body, call);
          Finish(Served(body[..length]), length)
        else Finish(Unavailable, 0),
        w )
  }

  /** How many calls an actor can still make. */
  function Rank(p: Proc): nat {
    match p
    case Finished(_) => 0
    case UploadLocal(_, _) => 2
    case UploadArchive(_, _) => 1
    case ArchiveStatLocal(_, _) => 6
    case ArchiveConfirm(_) => 1
    case KnownVerify(_, _, _) => 5
    case KnownOpen(_, _, _) => 4
    case KnownPut(_, _, _, _) => 3
    case KnownReverify(_, _, _) => 2
    case KnownEvict(_, _) => 1
    case BackfillList(_) => 6
    case SweepList(_, _) => 3
    case SweepVerify(_, _, _) => 2
    case SweepRemove(_, _) => 1
    case RestoreList(_) => 4
    case RestoreStat(_, _) => 3
    case RestoreOpen(_, _) => 2
    case RestorePut(_, _, _, _) => 1
    case ReadStat(_) => 2
    case ReadLocal(_) => 1
    case ReadArchive(_) => 1
  }

  // ----- The deployment of the worked examples --------------------------------

  const ON: Config := Config(true, "", EveryBucket)
  const OBJ: Loc := Loc("b", "k")

  // ----- One actor on its own -------------------------------------------------

  /** The actor run to its end with nobody else around; call number `i` gets `calls(i)`. */
  function Solo(cfg: Config, p: Proc, w: World, calls: nat -> Call, i: nat): (TierResult, World)
    decreases Rank(p)
  {
    if p.Finished? then (p.res, w)
    else
      var (p', w') := Step(cfg, p, w, calls(i));
      Solo(cfg, p', w', calls, i + 1)
  }

  lemma SoloLast(cfg: Config, p: Proc, w: World, calls: nat -> Call, i: nat)
    requires !p.Finished? && Step(cfg, p, w, calls(i)).0.Finished?
    ensures Solo(cfg, p, w, calls, i) == (Step(cfg, p, w, calls(i)).0.res, Step(cfg, p, w, calls(i)).1)
  {
    var (p', w') := Step(cfg, p, w, calls(i));
    assert Solo(cfg, p, w, calls, i) == Solo(cfg, p', w', calls, i + 1);
  }

  /** The archive as an undisturbed, fault-free `ArchiveKnownObject` leaves it. */
  function ArchivedWorld(cfg: Config, w: World, loc: Loc): World
    requires loc in w.local
  {
    if Verify(cfg, w, loc, |w.local[loc]|, Fine) == VerifyOK then w
    else ArchivePut(cfg, w, loc, w.local[loc], Fine)
  }

  lemma ArchiveUndisturbed(cfg: Config, w: World, loc: Loc, evict: bool, i: nat)
    requires cfg.InScope(loc.bucket) && loc in w.local
    ensures var n := |w.local[loc]|;
            var w' := ArchivedWorld(cfg, w, loc);
            Solo(cfg, ArchiveKnownEntry(cfg, loc, n, evict), w, AllFine, i) ==
              if evict then (TierResult(Archived, n), w'.(local := w.local - {loc}))
              else (TierResult(ArchivedKept, n), w')
  {
    var body := w.local[loc];
    var n := |body|;
    var w' := ArchivedWorld(cfg, w, loc);
    var verified := AfterVerified(loc, n, evict);
    forall j: nat ensures Solo(cfg, verified, w', AllFine, j) ==
        if evict then (TierResult(Archived, n), w'.(local := w.local - {loc})) else (TierResult(ArchivedKept, n), w') {
    }
    if Verify(cfg, w, loc, n, Fine) == VerifyOK {
      assert Solo(cfg, KnownVerify(loc, n, evict), w, AllFine, i) == Solo(cfg, verified, w, AllFine, i + 1);
    } else {
      assert Solo(cfg, KnownVerify(loc, n, evict), w, AllFine, i) ==
             Solo(cfg, KnownOpen(loc, n, evict), w, AllFine, i + 1);
      assert Solo(cfg, KnownOpen(loc, n, evict), w, AllFine, i + 1) ==
             Solo(cfg, KnownPut(loc, n, evict, body), w, AllFine, i + 2);
      assert Solo(cfg, KnownPut(loc, n, evict, body), w, AllFine, i + 2) ==
             Solo(cfg, KnownReverify(loc, n, evict), w', AllFine, i + 3);
      assert Solo(cfg, KnownReverify(loc, n, evict), w', AllFine, i + 3) == Solo(cfg, verified, w', AllFine, i + 4);
    }
  }

  lemma RestoreUndisturbed(cfg: Config, w: World, loc: Loc, size: nat, i: nat)
    requires cfg.enabled && cfg.PlaceOf(loc) in w.archive && |w.archive[cfg.PlaceOf(loc)]| == size
    ensures Solo(cfg, RestoreEntry(cfg, loc, size), w, AllFine, i) ==
              if loc in w.local && |w.local[loc]| == size then (TierResult(AlreadyLocal, size), w)
              else (TierResult(Restored, size), w.(local := w.local[loc := w.archive[cfg.PlaceOf(loc)]]))
  {
    var body := w.archive[cfg.PlaceOf(loc)];
    if !(loc in w.local && |w.local[loc]| == size) {
      assert body[..Min(size, |body|)] == body;
      assert Solo(cfg, RestoreStat(loc, size), w, AllFine, i) == Solo(cfg, RestoreOpen(loc, size), w, AllFine, i + 1);
      assert Solo(cfg, RestoreOpen(loc, size), w, AllFine, i + 1) ==
             Solo(cfg, RestorePut(loc, size, body, size), w, AllFine, i + 2);
      assert Solo(cfg, RestorePut(loc, size, body, size), w, AllFine, i + 2) ==
             Solo(cfg, Finish(Restored, size), w.(local := w.local[loc := body]), AllFine, i + 3);
    }
  }

  // ----- Any number of actors, interleaved ------------------------------------

  /** `uploaded` is history: what every upload stored under its key. */
  datatype System = System(world: World, uploaded: map<Loc, Bytes>, procs: seq<Proc>)

  /** `Crash` stops an actor between two calls, as killing the process does. */
  datatype Label = Spawn(p: Proc) | Act(i: nat, call: Call) | Crash(i: nat)

  /** The points where the service starts an actor. */
  predicate Entry(cfg: Config, p: Proc) {
    match p
    case UploadLocal(loc, _) => NoSlash(loc.bucket)
    case ArchiveStatLocal(loc, _) => cfg.enabled && NoSlash(loc.bucket)
    case BackfillList(loc) => cfg.enabled && NoSlash(loc.bucket)
    case SweepList(loc, _) => cfg.InScope(loc.bucket) && NoSlash(loc.bucket)
    case RestoreList(loc) => cfg.enabled && NoSlash(loc.bucket)
    case ReadStat(loc) => NoSlash(loc.bucket)
    case _ => false
  }

  /** Every operation of the service is there to be started. */
  lemma ActorsCanStart(cfg: Config, loc: Loc, content: Bytes, flag: bool)
    requires NoSlash(loc.bucket)
    ensures Entry(cfg, UploadLocal(loc, content)) && Entry(cfg, ReadStat(loc))
    ensures cfg.enabled ==>
              Entry(cfg, ArchiveStatLocal(loc, flag)) && Entry(cfg, BackfillList(loc)) && Entry(cfg, RestoreList(loc))
    ensures Entry(cfg, SweepList(loc, flag)) <==>
              cfg.enabled && (cfg.scope.EveryBucket? || loc.bucket in cfg.scope.buckets)
  {
  }

  /** The points whose call can change a tier. */
  predicate Writes(p: Proc) {
    p.UploadLocal? || p.UploadArchive? || p.KnownPut? || p.KnownEvict? || p.SweepRemove? || p.RestorePut?
  }

  /** The upload history after `p`'s call. */
  function Remember(p: Proc, uploaded: map<Loc, Bytes>, call: Call): map<Loc, Bytes> {
    if p.UploadLocal? && call.done.Whole? then uploaded[p.loc := p.content] else uploaded
  }

  function Next(cfg: Config, s: System, l: Label): System {
    match l
    case Spawn(p) => if Entry(cfg, p) then s.(procs := s.procs + [p]) else s
    case Crash(i) => if i < |s.procs| then s.(procs := s.procs[i := Finish(Crashed, 0)]) else s
    case Act(i, call) =>
      if i < |s.procs| then
        var p := s.procs[i];
        var (p', w') := Step(cfg, p, s.world, call);
        System(w', Remember(p, s.uploaded, call), s.procs[i := p'])
      else s
  }

  function Run(cfg: Config, s: System, ls: seq<Label>): System
    decreases |ls|
  {
    if ls == [] then s else Run(cfg, Next(cfg, s, ls[0]), ls[1..])
  }

  lemma {:induction false} RunAppend(cfg: Config, s: System, a: seq<Label>, b: seq<Label>)
    ensures Run(cfg, s, a + b) == Run(cfg, Run(cfg, s, a), b)
    decreases |a|
  {
    if a == [] {
      assert a + b == b;
    } else {
      assert (a + b)[0] == a[0] && (a + b)[1..] == a[1..] + b;
      RunAppend(cfg, Next(cfg, s, a[0]), a[1..], b);
    }
  }

  lemma RunThree(cfg: Config, s: System, a: Label, b: Label, c: Label)
    ensures Run(cfg, s, [a, b, c]) == Next(cfg, Next(cfg, Next(cfg, s, a), b), c)
  {
    assert [a, b, c][1..] == [b, c] && [b, c][1..] == [c] && [c][1..] == [];
    assert Run(cfg, s, [a, b, c]) == Run(cfg, Next(cfg, s, a), [b, c]);
    assert Run(cfg, Next(cfg, s, a), [b, c]) == Run(cfg, Next(cfg, Next(cfg, s, a), b), [c]);
  }

  /** Only an actor's first call is an upload. */
  lemma UploadsOnce(cfg: Config, p: Proc, w: World, call: Call)
    ensures !Step(cfg, p, w, call).0.UploadLocal?
    ensures !p.Finished? ==> Rank(Step(cfg, p, w, call).0) < Rank(p)
    ensures p.Finished? ==> Step(cfg, p, w, call) == (p, w)
  {
  }

  /** Running one actor alone is a run of the system: what is proved of every
      run is proved of every call of the sequential code. */
  lemma {:induction false} SoloIsARun(cfg: Config, s: System, at: nat, calls: nat -> Call, i: nat)
    returns (ls: seq<Label>)
    requires at < |s.procs|
    ensures var (res, w') := Solo(cfg, s.procs[at], s.world, calls, i);
            Run(cfg, s, ls) ==
              System(w', Remember(s.procs[at], s.uploaded, calls(i)), s.procs[at := Finished(res)])
    ensures forall k :: 0 <= k < |ls| ==> ls[k] == Act(at, calls(i + k))
    decreases Rank(s.procs[at])
  {
    var p := s.procs[at];
    if p.Finished? {
      ls := [];
    } else {
      var next := Next(cfg, s, Act(at, calls(i)));
      UploadsOnce(cfg, p, s.world, calls(i));
      assert next.procs[at] == Step(cfg, p, s.world, calls(i)).0;
      var rest := SoloIsARun(cfg, next, at, calls, i + 1);
      ls := [Act(at, calls(i))] + rest;
      assert ls[1..] == rest;
    }
  }
}
