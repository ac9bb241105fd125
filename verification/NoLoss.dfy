/** No uploaded byte is lost under any interleaving of the actors, with archive
    writes that are all or nothing. */
module NoLoss {
  import opened KeyMapping
  import opened Tiers

  // ----- What is assumed of the outside world ---------------------------------

  /** The storage call behind `l` is all or nothing, the reply a restore copies
      from carries its length, and an upload picks a key never used before and is
      acknowledged only once it is stored. Any call may still fail, or take
      effect and report failure, or report success and do nothing. */
  predicate Sound(s: System, l: Label) {
    l.Act? && l.i < |s.procs| ==>
      && !l.call.done.Part?
      && (s.procs[l.i].RestoreOpen? ==> l.call.sized)
      && (s.procs[l.i].UploadLocal? ==> s.procs[l.i].loc !in s.uploaded && (l.call.ok ==> l.call.done.Whole?))
  }

  ghost predicate SoundRun(cfg: Config, s: System, ls: seq<Label>)
    decreases |ls|
  {
    ls == [] || (Sound(s, ls[0]) && SoundRun(cfg, Next(cfg, s, ls[0]), ls[1..]))
  }

  // ----- The invariant --------------------------------------------------------

  /** Every copy of `loc` is `content`, and there is at least one. */
  predicate Held(cfg: Config, w: World, loc: Loc, content: Bytes) {
    && (loc in w.local ==> w.local[loc] == content)
    && (cfg.PlaceOf(loc) in w.archive ==> w.archive[cfg.PlaceOf(loc)] == content)
    && (loc in w.local || cfg.PlaceOf(loc) in w.archive)
  }

  ghost predicate Safe(cfg: Config, w: World, uploaded: map<Loc, Bytes>) {
    && (forall l :: l in uploaded ==> NoSlash(l.bucket) && Held(cfg, w, l, uploaded[l]))
    && (forall l :: l in w.local ==> l in uploaded)
    && (forall l: Loc :: NoSlash(l.bucket) && cfg.PlaceOf(l) in w.archive ==> l in uploaded)
  }

  predicate ArchiveHolds(cfg: Config, w: World, loc: Loc) { cfg.PlaceOf(loc) in w.archive }

  /** What is true of an actor at each of its program points. An actor past
      verification is one whose object the archive holds. */
  predicate ProcSafe(cfg: Config, w: World, uploaded: map<Loc, Bytes>, p: Proc) {
    match p
    case Finished(_) => true
    case UploadLocal(l, _) => NoSlash(l.bucket)
    case UploadArchive(l, content) => l in uploaded && uploaded[l] == content
    case KnownPut(l, _, _, content) => l in uploaded && uploaded[l] == content
    case KnownEvict(l, _) => NoSlash(l.bucket) && ArchiveHolds(cfg, w, l)
    case SweepRemove(l, _) => NoSlash(l.bucket) && ArchiveHolds(cfg, w, l)
    case RestorePut(l, _, content, length) => l in uploaded && uploaded[l] == content && length == |content|
    case _ => NoSlash(p.loc.bucket)
  }

  ghost predicate Invariant(cfg: Config, s: System) {
    && Safe(cfg, s.world, s.uploaded)
    && forall i :: 0 <= i < |s.procs| ==> ProcSafe(cfg, s.world, s.uploaded, s.procs[i])
  }

  /** What one step may do to the history and the archive: only add to them. */
  ghost predicate Grows(w: World, uploaded: map<Loc, Bytes>, w': World, uploaded': map<Loc, Bytes>) {
    && (forall l :: l in uploaded ==> l in uploaded' && uploaded'[l] == uploaded[l])
    && (forall q :: q in w.archive ==> q in w'.archive)
  }

  // ----- Each effect keeps the store safe -------------------------------------

  lemma ArchivePutIsSafe(cfg: Config, w: World, uploaded: map<Loc, Bytes>, loc: Loc, call: Call)
    requires Safe(cfg, w, uploaded) && loc in uploaded && !call.done.Part?
    ensures Safe(cfg, ArchivePut(cfg, w, loc, uploaded[loc], call), uploaded)
    ensures Grows(w, uploaded, ArchivePut(cfg, w, loc, uploaded[loc], call), uploaded)
  {
    forall l: Loc | NoSlash(l.bucket) && cfg.PlaceOf(l) == cfg.PlaceOf(loc) ensures l == loc {
      ResolveInjective(cfg.archiveBucket, l, loc);
    }
  }

  lemma LocalPutIsSafe(cfg: Config, w: World, uploaded: map<Loc, Bytes>, loc: Loc, call: Call)
    requires Safe(cfg, w, uploaded) && loc in uploaded
    ensures Safe(cfg, LocalPut(w, loc, uploaded[loc], call), uploaded)
    ensures Grows(w, uploaded, LocalPut(w, loc, uploaded[loc], call), uploaded)
  {
    assert Held(cfg, w, loc, uploaded[loc]);
  }

  lemma LocalRemoveIsSafe(cfg: Config, w: World, uploaded: map<Loc, Bytes>, loc: Loc, call: Call)
    requires Safe(cfg, w, uploaded) && NoSlash(loc.bucket) && ArchiveHolds(cfg, w, loc)
    ensures Safe(cfg, LocalRemove(w, loc, call), uploaded)
    ensures Grows(w, uploaded, LocalRemove(w, loc, call), uploaded)
  {
  }

  lemma UploadIsSafe(cfg: Config, w: World, uploaded: map<Loc, Bytes>, loc: Loc, content: Bytes, call: Call)
    requires Safe(cfg, w, uploaded) && NoSlash(loc.bucket) && loc !in uploaded && call.done.Whole?
    ensures Safe(cfg, LocalPut(w, loc, content, call), uploaded[loc := content])
    ensures Grows(w, uploaded, LocalPut(w, loc, content, call), uploaded[loc := content])
  {
  }

  // ----- One step keeps the invariant -----------------------------------------

  lemma QuietStepIsSafe(cfg: Config, w: World, uploaded: map<Loc, Bytes>, p: Proc, call: Call)
    requires Safe(cfg, w, uploaded) && ProcSafe(cfg, w, uploaded, p) && !Writes(p) && (p.RestoreOpen? ==> call.sized)
    ensures Step(cfg, p, w, call).1 == w
    ensures ProcSafe(cfg, w, uploaded, Step(cfg, p, w, call).0)
  {
    match p
    case KnownOpen(l, _, _) => assert l in w.local ==> l in uploaded && Held(cfg, w, l, uploaded[l]);
    case RestoreOpen(l, _) => assert cfg.PlaceOf(l) in w.archive ==> l in uploaded && Held(cfg, w, l, uploaded[l]);
    case _ =>
  }

  lemma WritingStepIsSafe(cfg: Config, w: World, uploaded: map<Loc, Bytes>, p: Proc, call: Call)
    requires Safe(cfg, w, uploaded) && ProcSafe(cfg, w, uploaded, p) && Writes(p) && !call.done.Part?
    requires p.UploadLocal? ==> p.loc !in uploaded && (call.ok ==> call.done.Whole?)
    ensures var (p', w') := Step(cfg, p, w, call);
            var uploaded' := Remember(p, uploaded, call);
            Safe(cfg, w', uploaded') && Grows(w, uploaded, w', uploaded') && ProcSafe(cfg, w', uploaded', p')
  {
    match p
    case UploadLocal(l, content) =>
      if call.done.Whole? {
        UploadIsSafe(cfg, w, uploaded, l, content, call);
      }
    case UploadArchive(l, _) => ArchivePutIsSafe(cfg, w, uploaded, l, call);
    case KnownPut(l, _, _, _) => ArchivePutIsSafe(cfg, w, uploaded, l, call);
    case KnownEvict(l, _) => LocalRemoveIsSafe(cfg, w, uploaded, l, call);
    case SweepRemove(l, _) => LocalRemoveIsSafe(cfg, w, uploaded, l, call);
    case RestorePut(l, _, content, length) =>
      assert content[..Min(length, |content|)] == content;
      LocalPutIsSafe(cfg, w, uploaded, l, call);
  }

  lemma StaysSafe(cfg: Config, w: World, uploaded: map<Loc, Bytes>, w': World, uploaded': map<Loc, Bytes>, p: Proc)
    requires ProcSafe(cfg, w, uploaded, p) && Grows(w, uploaded, w', uploaded')
    ensures ProcSafe(cfg, w', uploaded', p)
  {
  }

  lemma NextKeepsInvariant(cfg: Config, s: System, l: Label)
    requires Invariant(cfg, s) && Sound(s, l)
    ensures Invariant(cfg, Next(cfg, s, l))
    ensures Grows(s.world, s.uploaded, Next(cfg, s, l).world, Next(cfg, s, l).uploaded)
  {
    if l.Act? && l.i < |s.procs| {
      var p := s.procs[l.i];
      assert ProcSafe(cfg, s.world, s.uploaded, p);
      if Writes(p) {
        WritingStepIsSafe(cfg, s.world, s.uploaded, p, l.call);
      } else {
        QuietStepIsSafe(cfg, s.world, s.uploaded, p, l.call);
      }
      var s' := Next(cfg, s, l);
      forall j | 0 <= j < |s.procs| && j != l.i ensures ProcSafe(cfg, s'.world, s'.uploaded, s.procs[j]) {
        StaysSafe(cfg, s.world, s.uploaded, s'.world, s'.uploaded, s.procs[j]);
      }
    }
  }

  /** A deployment that starts empty starts safe. */
  lemma EmptyStart(cfg: Config)
    ensures Invariant(cfg, System(World(map[], map[], []), map[], []))
  {
  }

  // ----- The theorems ---------------------------------------------------------

  /** Whatever the schedule, the failures and the crashes: every object ever
      uploaded keeps its exact bytes in at least one tier and has no other bytes
      in either, and what the archive holds it goes on holding. */
  lemma {:induction false} NothingIsLost(cfg: Config, s: System, ls: seq<Label>)
    requires Invariant(cfg, s) && SoundRun(cfg, s, ls)
    ensures Invariant(cfg, Run(cfg, s, ls))
    ensures Grows(s.world, s.uploaded, Run(cfg, s, ls).world, Run(cfg, s, ls).uploaded)
    decreases |ls|
  {
    if ls != [] {
      NextKeepsInvariant(cfg, s, ls[0]);
      NothingIsLost(cfg, Next(cfg, s, ls[0]), ls[1..]);
    }
  }

  /** The assumptions can be met: a fault-free upload to an empty deployment is such
      a run, and afterwards the object is held. */
  lemma UploadIsARun(cfg: Config, loc: Loc, content: Bytes) returns (ls: seq<Label>)
    requires NoSlash(loc.bucket)
    ensures SoundRun(cfg, System(World(map[], map[], []), map[], []), ls)
    ensures var s := Run(cfg, System(World(map[], map[], []), map[], []), ls);
            s.uploaded == map[loc := content] && Held(cfg, s.world, loc, content)
            && s.procs == [Finish(Uploaded, |content|)]
  {
    var s0 := System(World(map[], map[], []), map[], []);
    var a, b := Spawn(UploadLocal(loc, content)), Act(0, Fine);
    var s1 := Next(cfg, s0, a);
    assert s1.procs == [UploadLocal(loc, content)];
    var s2 := Next(cfg, s1, b);
    assert !s2.procs[0].UploadLocal?;
    var s3 := Next(cfg, s2, b);
    assert s3.procs[0] == Finish(Uploaded, |content|);
    assert [b][1..] == [] && SoundRun(cfg, s3, []) && SoundRun(cfg, s2, [b]);
    assert [b, b][1..] == [b] && SoundRun(cfg, s1, [b, b]);
    ls := [a, b, b];
    assert ls[1..] == [b, b];
    RunThree(cfg, s0, a, b, b);
    EmptyStart(cfg);
    NothingIsLost(cfg, s0, ls);
  }

  /** What an answer says about its object is so. */
  predicate Truthful(cfg: Config, w: World, uploaded: map<Loc, Bytes>, loc: Loc, outcome: Outcome) {
    match outcome
    case Archived => ArchiveHolds(cfg, w, loc)
    case ArchivedKept => ArchiveHolds(cfg, w, loc)
    case AlreadyArchived => ArchiveHolds(cfg, w, loc)
    case SweptAway => ArchiveHolds(cfg, w, loc)
    case WouldSweep => ArchiveHolds(cfg, w, loc)
    case Uploaded => loc in uploaded
    case UploadedNotArchived => loc in uploaded
    case Served(body) => loc in uploaded && (body == uploaded[loc] || body == [])
    case _ => true
  }

  predicate TellsTruth(cfg: Config, w: World, uploaded: map<Loc, Bytes>, loc: Loc, p: Proc) {
    if p.Finished? then Truthful(cfg, w, uploaded, loc, p.res.outcome) else p.loc == loc
  }

  lemma StepTellsTruth(cfg: Config, w: World, uploaded: map<Loc, Bytes>, loc: Loc, p: Proc, call: Call)
    requires Safe(cfg, w, uploaded) && ProcSafe(cfg, w, uploaded, p) && !p.Finished? && p.loc == loc
    requires p.UploadLocal? ==> call.ok ==> call.done.Whole?
    ensures var (p', w') := Step(cfg, p, w, call);
            TellsTruth(cfg, w', Remember(p, uploaded, call), loc, p')
  {
    if p.ReadLocal? && loc in w.local {
      assert Held(cfg, w, loc, uploaded[loc]);
    }
    if p.ReadArchive? && cfg.PlaceOf(loc) in w.archive {
      assert Held(cfg, w, loc, uploaded[loc]);
      assert uploaded[loc][..|uploaded[loc]|] == uploaded[loc];
    }
  }

  lemma TruthLasts(cfg: Config, w: World, uploaded: map<Loc, Bytes>, w': World, uploaded': map<Loc, Bytes>, loc: Loc,
                   p: Proc)
    requires TellsTruth(cfg, w, uploaded, loc, p) && Grows(w, uploaded, w', uploaded')
    ensures TellsTruth(cfg, w', uploaded', loc, p)
  {
  }

  /** On every run, whatever fails: an actor that answers archived, kept, already
      archived or swept does so of an object the archive holds, then and for ever;
      one that answers uploaded has stored it; and a read never serves other bytes
      than the upload's, though a reply without a length can make it serve none. */
  lemma {:induction false} AnswersAreTrue(cfg: Config, s: System, ls: seq<Label>, at: nat, loc: Loc)
    requires Invariant(cfg, s) && SoundRun(cfg, s, ls)
    requires at < |s.procs| && TellsTruth(cfg, s.world, s.uploaded, loc, s.procs[at])
    ensures var s' := Run(cfg, s, ls);
            at < |s'.procs| && TellsTruth(cfg, s'.world, s'.uploaded, loc, s'.procs[at])
    decreases |ls|
  {
    if ls != [] {
      var l, s' := ls[0], Next(cfg, s, ls[0]);
      NextKeepsInvariant(cfg, s, l);
      if l.Act? && l.i == at && !s.procs[at].Finished? {
        assert ProcSafe(cfg, s.world, s.uploaded, s.procs[at]);
        StepTellsTruth(cfg, s.world, s.uploaded, loc, s.procs[at], l.call);
      } else if l != Crash(at) {
        assert s'.procs[at] == s.procs[at];
        TruthLasts(cfg, s.world, s.uploaded, s'.world, s'.uploaded, loc, s.procs[at]);
      }
      AnswersAreTrue(cfg, s', ls[1..], at, loc);
    }
  }

  /** The first call of a read picks a tier that holds the object. */
  lemma ReadPicksATier(cfg: Config, s: System, loc: Loc)
    requires Invariant(cfg, s) && loc in s.uploaded && s.uploaded[loc] != []
    requires cfg.enabled || loc in s.world.local
    ensures Step(cfg, ReadStat(loc), s.world, Fine).0 ==
              if loc in s.world.local then ReadLocal(loc) else ReadArchive(loc)
    ensures loc in s.world.local || ArchiveHolds(cfg, s.world, loc)
  {
    assert Held(cfg, s.world, loc, s.uploaded[loc]);
  }

  /** Whichever tier answers the second call answers with the uploaded bytes. */
  lemma EitherTierServes(cfg: Config, s: System, loc: Loc)
    requires Invariant(cfg, s) && loc in s.uploaded
    ensures var served := Finish(Served(s.uploaded[loc]), |s.uploaded[loc]|);
            && (loc in s.world.local ==> Step(cfg, ReadLocal(loc), s.world, Fine).0 == served)
            && (loc !in s.world.local ==>
                 && Step(cfg, ReadLocal(loc), s.world, Fine).0 == Finish(Interrupted, 0)
                 && ArchiveHolds(cfg, s.world, loc))
            && (ArchiveHolds(cfg, s.world, loc) ==> Step(cfg, ReadArchive(loc), s.world, Fine).0 == served)
  {
    var content := s.uploaded[loc];
    assert Held(cfg, s.world, loc, content);
    assert content[..|content|] == content;
  }

  /** A read that falls through returns the upload exactly when the archive's
      reply carries its length: the response is cut to the length it declares. */
  lemma FallThroughNeedsTheLength(cfg: Config, s: System, loc: Loc, call: Call)
    requires Invariant(cfg, s) && loc in s.uploaded && s.uploaded[loc] != []
    requires ArchiveHolds(cfg, s.world, loc) && call.ok
    ensures Step(cfg, ReadArchive(loc), s.world, call).0 == Finish(Served(s.uploaded[loc]), |s.uploaded[loc]|) <==>
              call.sized
  {
    var content := s.uploaded[loc];
    assert Held(cfg, s.world, loc, content);
    assert content[..|content|] == content;
  }

  /** A read that meets no failure returns the uploaded bytes. Between its two
      calls anything may happen; the one other outcome is that a copy seen
      locally was evicted, and then the archive holds it for a retry. */
  lemma ReadReturnsUpload(cfg: Config, s: System, loc: Loc, between: seq<Label>)
    requires Invariant(cfg, s) && (cfg.enabled || loc in s.world.local)
    requires loc in s.uploaded && s.uploaded[loc] != []
    requires SoundRun(cfg, s, between)
    ensures var content := s.uploaded[loc];
            var later := Run(cfg, s, between);
            var (p', _) := Step(cfg, ReadStat(loc), s.world, Fine);
            var (p'', _) := Step(cfg, p', later.world, Fine);
            || p'' == Finish(Served(content), |content|)
            || ( && p'' == Finish(Interrupted, 0) && loc in s.world.local && loc !in later.world.local
                 && ArchiveHolds(cfg, later.world, loc) )
  {
    NothingIsLost(cfg, s, between);
    ReadPicksATier(cfg, s, loc);
    EitherTierServes(cfg, Run(cfg, s, between), loc);
  }

  /** A read with no interference always returns the uploaded bytes. */
  lemma QuietReadReturnsUpload(cfg: Config, s: System, loc: Loc)
    requires Invariant(cfg, s) && (cfg.enabled || loc in s.world.local)
    requires loc in s.uploaded && s.uploaded[loc] != []
    ensures Solo(cfg, ReadStat(loc), s.world, AllFine, 0) ==
              (TierResult(Served(s.uploaded[loc]), |s.uploaded[loc]|), s.world)
  {
    ReadReturnsUpload(cfg, s, loc, []);
    var (p', w') := Step(cfg, ReadStat(loc), s.world, Fine);
    assert Solo(cfg, ReadStat(loc), s.world, AllFine, 0) == Solo(cfg, p', w', AllFine, 1);
    var (p'', w'') := Step(cfg, p', w', Fine);
    assert Solo(cfg, p', w', AllFine, 1) == Solo(cfg, p'', w'', AllFine, 2);
  }

  // ----- Why each assumption is needed ----------------------------------------

  /** One actor after another, each with the calls it meets. */
  function After(p: Proc, w: World, calls: nat -> Call): World { Solo(ON, p, w, calls, 0).1 }

  /** Exactly when a restore whose calls all succeed leaves the archived bytes in
      local storage: an equal-sized copy is trusted, so it must be right already;
      otherwise the reply must carry the length, unless there is nothing to copy. */
  lemma RestoreIsExactIff(cfg: Config, w: World, loc: Loc, calls: nat -> Call)
    requires cfg.enabled && cfg.PlaceOf(loc) in w.archive
    requires forall i :: calls(i).ok && calls(i).done.Whole?
    ensures var body := w.archive[cfg.PlaceOf(loc)];
            var w' := Solo(cfg, RestoreEntry(cfg, loc, |body|), w, calls, 0).1;
            (loc in w'.local && w'.local[loc] == body) <==>
              if loc in w.local && |w.local[loc]| == |body| then w.local[loc] == body
              else calls(1).sized || body == []
  {
    var body := w.archive[cfg.PlaceOf(loc)];
    var n := |body|;
    if !(loc in w.local && |w.local[loc]| == n) {
      var length := Reported(body, calls(1));
      assert calls(0).ok && calls(1).ok && calls(2).ok && calls(2).done.Whole?;
      assert Solo(cfg, RestoreStat(loc, n), w, calls, 0) == Solo(cfg, RestoreOpen(loc, n), w, calls, 1);
      assert Solo(cfg, RestoreOpen(loc, n), w, calls, 1) == Solo(cfg, RestorePut(loc, n, body, length), w, calls, 2);
      SoloLast(cfg, RestorePut(loc, n, body, length), w, calls, 2);
      assert body[..Min(length, n)] == if length == n then body else [];
    }
  }

  const UnsizedOpen: nat -> Call := i => if i == 1 then Call(Whole, true, false) else Fine

  /** A length missing from the archive's reply makes `RestoreObject` write an
      empty local copy; archiving that copy then overwrites the only good one. */
  lemma UnreportedLengthLosesAnObject(content: Bytes)
    requires content != []
    ensures var w := World(map[], map[ON.PlaceOf(OBJ) := content], []);
            var restored := After(RestoreEntry(ON, OBJ, |content|), w, UnsizedOpen);
            var w' := After(ArchiveObjectEntry(ON, OBJ, true), restored, AllFine);
            && Safe(ON, w, map[OBJ := content])
            && OBJ !in w'.local
            && w'.archive == map[ON.PlaceOf(OBJ) := []]
  {
    var place := ON.PlaceOf(OBJ);
    var w := World(map[], map[place := content], []);
    forall l: Loc | NoSlash(l.bucket) && ON.PlaceOf(l) in w.archive ensures l == OBJ {
      ResolveInjective(ON.archiveBucket, l, OBJ);
    }
    var n := |content|;
    var restored := w.(local := map[OBJ := []]);
    assert After(RestoreEntry(ON, OBJ, n), w, UnsizedOpen) == restored by {
      assert Solo(ON, RestoreOpen(OBJ, n), w, UnsizedOpen, 1) ==
             Solo(ON, RestorePut(OBJ, n, content, 0), w, UnsizedOpen, 2);
      assert Solo(ON, RestorePut(OBJ, n, content, 0), w, UnsizedOpen, 2).1 == restored;
    }
    ArchiveUndisturbed(ON, restored, OBJ, true, 1);
    assert Solo(ON, ArchiveStatLocal(OBJ, true), restored, AllFine, 0) ==
           Solo(ON, KnownVerify(OBJ, 0, true), restored, AllFine, 1);
  }

  const SecondCallFails: nat -> Call := i => if i == 1 then Call(Nothing, false, true) else Fine

  /** Why `Sound` asks for fresh keys, as the upload handlers' random names are:
      if a key were reused for content of the same size and the archive write
      failed, the sweep would remove the only copy of the second upload. */
  lemma ReusedKeyLosesAnUpload(first: Bytes, second: Bytes)
    requires |first| == |second| && first != second
    ensures var place := ON.PlaceOf(OBJ);
            var w := World(map[OBJ := first], map[place := first], []);
            var reused := After(UploadLocal(OBJ, second), w, SecondCallFails);
            var w' := After(SweepList(OBJ, false), reused, AllFine);
            && Safe(ON, w, map[OBJ := first])
            && reused.local == map[OBJ := second]
            && w'.local == map[]
            && w'.archive == map[place := first]
  {
    var place := ON.PlaceOf(OBJ);
    var w := World(map[OBJ := first], map[place := first], []);
    forall l: Loc | NoSlash(l.bucket) && ON.PlaceOf(l) in w.archive ensures l == OBJ {
      ResolveInjective(ON.archiveBucket, l, OBJ);
    }
    var n := |first|;
    var reused := LocalPut(w, OBJ, second, Fine);
    assert reused.local == map[OBJ := second];
    assert After(UploadLocal(OBJ, second), w, SecondCallFails) == reused by {
      assert Solo(ON, UploadLocal(OBJ, second), w, SecondCallFails, 0) ==
             Solo(ON, UploadArchive(OBJ, second), reused, SecondCallFails, 1);
      assert Solo(ON, UploadArchive(OBJ, second), reused, SecondCallFails, 1) ==
             Solo(ON, Finish(UploadedNotArchived, n), reused, SecondCallFails, 2);
    }
    assert Solo(ON, SweepList(OBJ, false), reused, AllFine, 0) ==
           Solo(ON, SweepVerify(OBJ, n, false), reused, AllFine, 1);
    assert Solo(ON, SweepVerify(OBJ, n, false), reused, AllFine, 1) ==
           Solo(ON, SweepRemove(OBJ, n), reused, AllFine, 2);
    var swept := LocalRemove(reused, OBJ, Fine);
    assert Solo(ON, SweepRemove(OBJ, n), reused, AllFine, 2) == Solo(ON, Finish(SweptAway, n), swept, AllFine, 3);
    assert swept.local == map[];
  }
}
