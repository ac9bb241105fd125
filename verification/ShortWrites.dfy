/** The size check is a sound content check when an archive write may store any
    prefix of its source: whatever is evicted is archived in full. */
module ShortWrites {
  import opened KeyMapping
  import opened Tiers

  // ----- What is assumed of the outside world ---------------------------------

  /** About to write the archive copy of its object. */
  predicate Writing(p: Proc) { p.UploadArchive? || p.KnownOpen? || p.KnownPut? }

  predicate Restoring(p: Proc) { p.RestoreList? || p.RestoreStat? || p.RestoreOpen? || p.RestorePut? }

  /** No object has two actors about to write its archive copy. */
  predicate OneWriterPerObject(s: System) {
    forall i, j :: 0 <= i < j < |s.procs| && Writing(s.procs[i]) && Writing(s.procs[j]) ==>
      s.procs[i].loc != s.procs[j].loc
  }

  /** Uploads use fresh keys, an acknowledged upload is stored, nothing restores.
      Archive writes may store the whole source, nothing, or any prefix, and
      report success or failure regardless. */
  predicate Admitted(s: System, l: Label) {
    && OneWriterPerObject(s)
    && (l.Spawn? ==> !Restoring(l.p))
    && (l.Act? && l.i < |s.procs| && s.procs[l.i].UploadLocal? ==>
          s.procs[l.i].loc !in s.uploaded && (l.call.ok ==> l.call.done.Whole?))
  }

  ghost predicate AdmittedRun(cfg: Config, s: System, ls: seq<Label>)
    decreases |ls|
  {
    if ls == [] then OneWriterPerObject(s)
    else Admitted(s, ls[0]) && AdmittedRun(cfg, Next(cfg, s, ls[0]), ls[1..])
  }

  // ----- The invariant --------------------------------------------------------

  predicate FullyArchived(cfg: Config, w: World, loc: Loc, content: Bytes) {
    cfg.PlaceOf(loc) in w.archive && w.archive[cfg.PlaceOf(loc)] == content
  }

  /** A local copy is exact, an archived copy is a prefix, and an object without
      a local copy is archived in full. */
  predicate Held(cfg: Config, w: World, loc: Loc, content: Bytes) {
    && (loc in w.local ==> w.local[loc] == content)
    && (cfg.PlaceOf(loc) in w.archive ==> w.archive[cfg.PlaceOf(loc)] <= content)
    && (loc in w.local || FullyArchived(cfg, w, loc, content))
  }

  ghost predicate Safe(cfg: Config, w: World, uploaded: map<Loc, Bytes>) {
    && (forall l :: l in uploaded ==> NoSlash(l.bucket) && Held(cfg, w, l, uploaded[l]))
    && (forall l :: l in w.local ==> l in uploaded)
    && (forall l: Loc :: NoSlash(l.bucket) && cfg.PlaceOf(l) in w.archive ==> l in uploaded)
  }

  /** Past verification the archive holds every byte; a writer is an actor whose
      object it does not hold in full yet. */
  predicate ProcSafe(cfg: Config, w: World, uploaded: map<Loc, Bytes>, p: Proc) {
    match p
    case Finished(_) => true
    case UploadArchive(l, content) => l in uploaded && uploaded[l] == content && !FullyArchived(cfg, w, l, uploaded[l])
    case KnownVerify(l, size, _) => l in uploaded && size == |uploaded[l]|
    case KnownOpen(l, size, _) => l in uploaded && size == |uploaded[l]| && !FullyArchived(cfg, w, l, uploaded[l])
    case KnownPut(l, size, _, content) =>
      l in uploaded && size == |uploaded[l]| && content == uploaded[l] && !FullyArchived(cfg, w, l, uploaded[l])
    case KnownReverify(l, size, _) => l in uploaded && size == |uploaded[l]|
    case KnownEvict(l, _) => l in uploaded && FullyArchived(cfg, w, l, uploaded[l])
    case SweepVerify(l, size, _) => l in uploaded && size == |uploaded[l]|
    case SweepRemove(l, _) => l in uploaded && FullyArchived(cfg, w, l, uploaded[l])
    case _ => !Restoring(p) && NoSlash(p.loc.bucket)
  }

  ghost predicate Invariant(cfg: Config, s: System) {
    && Safe(cfg, s.world, s.uploaded)
    && forall i :: 0 <= i < |s.procs| ==> ProcSafe(cfg, s.world, s.uploaded, s.procs[i])
  }

  /** Uploads are remembered and a full archived copy is never written again. */
  ghost predicate KeepsFullCopies(cfg: Config, w: World, uploaded: map<Loc, Bytes>, w': World,
                                  uploaded': map<Loc, Bytes>) {
    && (forall l :: l in uploaded ==> l in uploaded' && uploaded'[l] == uploaded[l])
    && (forall l :: l in uploaded && FullyArchived(cfg, w, l, uploaded[l]) ==> FullyArchived(cfg, w', l, uploaded[l]))
  }

  /** Copies of objects other than `loc` are as archived as they were. */
  ghost predicate OnlyWrites(cfg: Config, loc: Loc, w: World, uploaded: map<Loc, Bytes>, w': World) {
    forall l :: l in uploaded && l != loc ==>
      (FullyArchived(cfg, w', l, uploaded[l]) <==> FullyArchived(cfg, w, l, uploaded[l]))
  }

  // ----- Each effect keeps the store safe -------------------------------------

  lemma ArchivePutIsSafe(cfg: Config, w: World, uploaded: map<Loc, Bytes>, loc: Loc, call: Call)
    requires Safe(cfg, w, uploaded) && loc in uploaded && !FullyArchived(cfg, w, loc, uploaded[loc])
    ensures var w' := ArchivePut(cfg, w, loc, uploaded[loc], call);
            && Safe(cfg, w', uploaded)
            && KeepsFullCopies(cfg, w, uploaded, w', uploaded)
            && OnlyWrites(cfg, loc, w, uploaded, w')
  {
    assert Held(cfg, w, loc, uploaded[loc]);
    forall l: Loc | NoSlash(l.bucket) && cfg.PlaceOf(l) == cfg.PlaceOf(loc) ensures l == loc {
      ResolveInjective(cfg.archiveBucket, l, loc);
    }
  }

  lemma LocalRemoveIsSafe(cfg: Config, w: World, uploaded: map<Loc, Bytes>, loc: Loc, call: Call)
    requires Safe(cfg, w, uploaded) && loc in uploaded && FullyArchived(cfg, w, loc, uploaded[loc])
    ensures Safe(cfg, LocalRemove(w, loc, call), uploaded)
  {
  }

  lemma UploadIsSafe(cfg: Config, w: World, uploaded: map<Loc, Bytes>, loc: Loc, content: Bytes, call: Call)
    requires Safe(cfg, w, uploaded) && NoSlash(loc.bucket) && loc !in uploaded && call.done.Whole?
    ensures Safe(cfg, LocalPut(w, loc, content, call), uploaded[loc := content])
    ensures !FullyArchived(cfg, LocalPut(w, loc, content, call), loc, content)
  {
    assert cfg.PlaceOf(loc) !in w.archive;
  }

  /** The whole point of the size check: a prefix of the right size is the object. */
  lemma SizeCheckIsContentCheck(cfg: Config, w: World, uploaded: map<Loc, Bytes>, loc: Loc, call: Call)
    requires Safe(cfg, w, uploaded) && loc in uploaded
    ensures Verify(cfg, w, loc, |uploaded[loc]|, call) == VerifyOK ==> FullyArchived(cfg, w, loc, uploaded[loc])
    ensures Verify(cfg, w, loc, |uploaded[loc]|, call) in {VerifyNotArchived, VerifySizeMismatch} ==>
              !FullyArchived(cfg, w, loc, uploaded[loc])
  {
    assert Held(cfg, w, loc, uploaded[loc]);
  }

  // ----- One step keeps the invariant -----------------------------------------

  lemma QuietStepIsSafe(cfg: Config, w: World, uploaded: map<Loc, Bytes>, p: Proc, call: Call)
    requires Safe(cfg, w, uploaded) && ProcSafe(cfg, w, uploaded, p) && !Writes(p)
    ensures Step(cfg, p, w, call).1 == w
    ensures ProcSafe(cfg, w, uploaded, Step(cfg, p, w, call).0)
  {
    if !p.Finished? {
      var l := p.loc;
      assert l in w.local ==> l in uploaded;
      assert l in uploaded ==> NoSlash(l.bucket) && Held(cfg, w, l, uploaded[l]);
      if l in uploaded {
        SizeCheckIsContentCheck(cfg, w, uploaded, l, call);
      }
    }
  }

  lemma WritingStepIsSafe(cfg: Config, w: World, uploaded: map<Loc, Bytes>, p: Proc, call: Call)
    requires Safe(cfg, w, uploaded) && ProcSafe(cfg, w, uploaded, p) && Writes(p)
    requires p.UploadLocal? ==> p.loc !in uploaded && (call.ok ==> call.done.Whole?)
    ensures var (p', w') := Step(cfg, p, w, call);
            var uploaded' := Remember(p, uploaded, call);
            && Safe(cfg, w', uploaded') && ProcSafe(cfg, w', uploaded', p')
            && KeepsFullCopies(cfg, w, uploaded, w', uploaded')
            && (Writing(p) ==> OnlyWrites(cfg, p.loc, w, uploaded, w'))
            && (!Writing(p) ==> w'.archive == w.archive)
  {
    match p
    case UploadLocal(l, content) =>
      if call.done.Whole? {
        UploadIsSafe(cfg, w, uploaded, l, content, call);
      }
    case UploadArchive(l, _) => ArchivePutIsSafe(cfg, w, uploaded, l, call);
    case KnownPut(l, _, _, _) => ArchivePutIsSafe(cfg, w, uploaded, l, call);
    case KnownEvict(l, _) => LocalRemoveIsSafe(cfg, w, uploaded, l, call);
    case SweepRemove(l, _) => LocalRemoveIsSafe(cfg, w, uploaded, l, call);
  }

  /** Another actor's call leaves `p` safe, unless both write the same object. */
  lemma StaysSafe(cfg: Config, w: World, uploaded: map<Loc, Bytes>, w': World, uploaded': map<Loc, Bytes>, p: Proc)
    requires ProcSafe(cfg, w, uploaded, p) && KeepsFullCopies(cfg, w, uploaded, w', uploaded')
    requires Writing(p) && FullyArchived(cfg, w', p.loc, uploaded[p.loc]) ==>
               FullyArchived(cfg, w, p.loc, uploaded[p.loc])
    ensures ProcSafe(cfg, w', uploaded', p)
  {
  }

  lemma NextKeepsInvariant(cfg: Config, s: System, l: Label)
    requires Invariant(cfg, s) && Admitted(s, l)
    ensures Invariant(cfg, Next(cfg, s, l))
    ensures KeepsFullCopies(cfg, s.world, s.uploaded, Next(cfg, s, l).world, Next(cfg, s, l).uploaded)
  {
    if l.Act? && l.i < |s.procs| {
      var p := s.procs[l.i];
      assert ProcSafe(cfg, s.world, s.uploaded, p);
      if Writes(p) {
        WritingStepIsSafe(cfg, s.world, s.uploaded, p, l.call);
      } else {
        QuietStepIsSafe(cfg, s.world, s.uploaded, p, l.call);
      }
      var s' := Next(cfg, s, l);
      forall j | 0 <= j < |s.procs| && j != l.i ensures ProcSafe(cfg, s'.world, s'.uploaded, s.procs[j]) {
        assert ProcSafe(cfg, s.world, s.uploaded, s.procs[j]);
        assert Writing(p) && Writing(s.procs[j]) ==> p.loc != s.procs[j].loc;
        StaysSafe(cfg, s.world, s.uploaded, s'.world, s'.uploaded, s.procs[j]);
      }
    }
  }

  // ----- The theorem ----------------------------------------------------------

  /** Under short writes, with one archive writer per object at a time and no
      restore: every object without a local copy is archived byte for byte, and
      a full archived copy is never overwritten. */
  lemma {:induction false} EvictedMeansFullyArchived(cfg: Config, s: System, ls: seq<Label>)
    requires Invariant(cfg, s) && AdmittedRun(cfg, s, ls)
    ensures Invariant(cfg, Run(cfg, s, ls))
    ensures KeepsFullCopies(cfg, s.world, s.uploaded, Run(cfg, s, ls).world, Run(cfg, s, ls).uploaded)
    ensures forall l :: l in s.uploaded && l !in Run(cfg, s, ls).world.local ==>
              FullyArchived(cfg, Run(cfg, s, ls).world, l, s.uploaded[l])
    decreases |ls|
  {
    if ls == [] {
      forall l | l in s.uploaded ensures Held(cfg, s.world, l, s.uploaded[l]) {}
    } else {
      NextKeepsInvariant(cfg, s, ls[0]);
      EvictedMeansFullyArchived(cfg, Next(cfg, s, ls[0]), ls[1..]);
    }
  }

  /** An answer that speaks of the archive is of an object archived byte for byte. */
  predicate TellsTruth(cfg: Config, w: World, uploaded: map<Loc, Bytes>, loc: Loc, p: Proc) {
    if !p.Finished? then p.loc == loc
    else if p.res.outcome in {Archived, ArchivedKept, SweptAway, WouldSweep} then
      loc in uploaded && FullyArchived(cfg, w, loc, uploaded[loc])
    else true
  }

  lemma StepTellsTruth(cfg: Config, w: World, uploaded: map<Loc, Bytes>, loc: Loc, p: Proc, call: Call)
    requires Safe(cfg, w, uploaded) && ProcSafe(cfg, w, uploaded, p) && !p.Finished? && p.loc == loc
    ensures var (p', w') := Step(cfg, p, w, call);
            TellsTruth(cfg, w', Remember(p, uploaded, call), loc, p')
  {
    if loc in uploaded {
      SizeCheckIsContentCheck(cfg, w, uploaded, loc, call);
    }
  }

  /** On every admitted run, short writes included: an actor that answers archived,
      kept or swept does so of an object the archive holds in full, then and for ever. */
  lemma {:induction false} AnswersAreTrue(cfg: Config, s: System, ls: seq<Label>, at: nat, loc: Loc)
    requires Invariant(cfg, s) && AdmittedRun(cfg, s, ls)
    requires at < |s.procs| && TellsTruth(cfg, s.world, s.uploaded, loc, s.procs[at])
    ensures var s' := Run(cfg, s, ls);
            at < |s'.procs| && TellsTruth(cfg, s'.world, s'.uploaded, loc, s'.procs[at])
    decreases |ls|
  {
    if ls != [] {
      var l, s' := ls[0], Next(cfg, s, ls[0]);
      NextKeepsInvariant(cfg, s, l);
      if l.Act? && l.i == at && !s.procs[at].Finished? {
        assert ProcSafe(cfg, s.world, s.uploaded, s.procs[at]);
        StepTellsTruth(cfg, s.world, s.uploaded, loc, s.procs[at], l.call);
      } else if l != Crash(at) {
        assert s'.procs[at] == s.procs[at];
      }
      AnswersAreTrue(cfg, s', ls[1..], at, loc);
    }
  }

  // ----- Sequential runs ------------------------------------------------------

  predicate AtMostOneActive(s: System) {
    forall i, j :: 0 <= i < j < |s.procs| ==> s.procs[i].Finished? || s.procs[j].Finished?
  }

  /** The next actor starts only when the previous one is done. */
  ghost predicate SequentialRun(cfg: Config, s: System, ls: seq<Label>)
    decreases |ls|
  {
    ls == [] ||
    ( && (ls[0].Spawn? ==> !Restoring(ls[0].p) && forall i :: 0 <= i < |s.procs| ==> s.procs[i].Finished?)
      && (ls[0].Act? && ls[0].i < |s.procs| && s.procs[ls[0].i].UploadLocal? ==>
            s.procs[ls[0].i].loc !in s.uploaded && (ls[0].call.ok ==> ls[0].call.done.Whole?))
      && SequentialRun(cfg, Next(cfg, s, ls[0]), ls[1..]) )
  }

  /** Operations run one after another meet the theorem's assumption by themselves. */
  lemma {:induction false} SequentialRunsAreAdmitted(cfg: Config, s: System, ls: seq<Label>)
    requires AtMostOneActive(s) && SequentialRun(cfg, s, ls)
    ensures AdmittedRun(cfg, s, ls)
    decreases |ls|
  {
    if ls != [] {
      SequentialRunsAreAdmitted(cfg, Next(cfg, s, ls[0]), ls[1..]);
    }
  }

  // ----- Why each assumption is needed ----------------------------------------

  lemma OnlyOBJ(w: World)
    requires w.archive.Keys <= {ON.PlaceOf(OBJ)}
    ensures forall l: Loc :: NoSlash(l.bucket) && ON.PlaceOf(l) in w.archive ==> l == OBJ
  {
    forall l: Loc | NoSlash(l.bucket) && ON.PlaceOf(l) in w.archive ensures l == OBJ {
      ResolveInjective(ON.archiveBucket, l, OBJ);
    }
  }

  /** An archive request starts, or a call of one reports success. */
  predicate StartsOrSucceeds(l: Label) {
    (l.Spawn? && l.p.ArchiveStatLocal?) || (l.Act? && l.call.ok)
  }

  predicate AllSucceed(ls: seq<Label>) { forall i :: 0 <= i < |ls| ==> ls[i].Act? && ls[i].call.ok }

  /** Three calls take an archive request for an object that is not archived in
      full from its start to its archive write. */
  lemma ReachesItsWrite(cfg: Config, s: System, at: nat, loc: Loc, evict: bool) returns (ls: seq<Label>)
    requires at < |s.procs| && s.procs[at] == ArchiveStatLocal(loc, evict)
    requires cfg.InScope(loc.bucket) && loc in s.world.local && !Verified(cfg, s.world, loc)
    ensures AllSucceed(ls)
    ensures var content := s.world.local[loc];
            Run(cfg, s, ls) == s.(procs := s.procs[at := KnownPut(loc, |content|, evict, content)])
  {
    var content := s.world.local[loc];
    var size := |content|;
    var s1 := Next(cfg, s, Act(at, Fine));
    assert s1.procs == s.procs[at := KnownVerify(loc, size, evict)];
    var s2 := Next(cfg, s1, Act(at, Fine));
    assert s2.procs == s.procs[at := KnownOpen(loc, size, evict)];
    var s3 := Next(cfg, s2, Act(at, Fine));
    assert s3.procs == s.procs[at := KnownPut(loc, size, evict, content)];
    RunThree(cfg, s, Act(at, Fine), Act(at, Fine), Act(at, Fine));
    ls := [Act(at, Fine), Act(at, Fine), Act(at, Fine)];
  }

  /** A writer stores a full copy, verifies it and evicts. */
  lemma WritesAndEvicts(cfg: Config, w: World, loc: Loc)
    requires cfg.enabled && loc in w.local
    ensures var content, place := w.local[loc], cfg.PlaceOf(loc);
            Solo(cfg, KnownPut(loc, |content|, true, content), w, AllFine, 0) ==
              ( TierResult(Archived, |content|),
                World(w.local - {loc}, w.archive[place := content], w.puts + [place]) )
  {
    var content, place := w.local[loc], cfg.PlaceOf(loc);
    var size := |content|;
    var w1 := ArchivePut(cfg, w, loc, content, Fine);
    assert Solo(cfg, KnownPut(loc, size, true, content), w, AllFine, 0) ==
           Solo(cfg, KnownReverify(loc, size, true), w1, AllFine, 1);
    assert Solo(cfg, KnownReverify(loc, size, true), w1, AllFine, 1) ==
           Solo(cfg, KnownEvict(loc, size), w1, AllFine, 2);
    SoloLast(cfg, KnownEvict(loc, size), w1, AllFine, 2);
  }

  lemma BothReachTheirWrites(cfg: Config, s: System, loc: Loc, i: nat, j: nat) returns (ls: seq<Label>)
    requires i < |s.procs| && j < |s.procs| && i != j
    requires s.procs[i].ArchiveStatLocal? && s.procs[i].loc == loc
    requires s.procs[j].ArchiveStatLocal? && s.procs[j].loc == loc
    requires cfg.InScope(loc.bucket) && loc in s.world.local && !Verified(cfg, s.world, loc)
    ensures AllSucceed(ls)
    ensures var content, s' := s.world.local[loc], Run(cfg, s, ls);
            && s'.world == s.world && |s'.procs| == |s.procs|
            && s'.procs[i] == KnownPut(loc, |content|, s.procs[i].evict, content)
            && s'.procs[j] == KnownPut(loc, |content|, s.procs[j].evict, content)
  {
    var first := ReachesItsWrite(cfg, s, j, loc, s.procs[j].evict);
    var second := ReachesItsWrite(cfg, Run(cfg, s, first), i, loc, s.procs[i].evict);
    RunAppend(cfg, s, first, second);
    ls := first + second;
  }

  /** The writer that evicts verifies its full copy and removes the local one; the
      other's write falls short. */
  lemma EvictsThenTruncates(cfg: Config, s: System, loc: Loc, evictor: nat, other: nat, n: nat) returns (ls: seq<Label>)
    requires evictor < |s.procs| && other < |s.procs| && evictor != other
    requires cfg.enabled && loc in s.world.local && n < |s.world.local[loc]|
    requires var content := s.world.local[loc];
             && s.procs[evictor] == KnownPut(loc, |content|, true, content)
             && s.procs[other].KnownPut? && s.procs[other].loc == loc && s.procs[other].content == content
    ensures AllSucceed(ls)
    ensures var w' := Run(cfg, s, ls).world;
            && loc !in w'.local
            && w'.archive == s.world.archive[cfg.PlaceOf(loc) := s.world.local[loc][..n]]
  {
    WritesAndEvicts(cfg, s.world, loc);
    var evicts := SoloIsARun(cfg, s, evictor, AllFine, 0);
    var s1 := Run(cfg, s, evicts);
    assert s1.procs[other] == s.procs[other];
    var short := Act(other, Call(Part(n), true, true));
    assert [short][1..] == [] && Run(cfg, s1, [short]) == Run(cfg, Next(cfg, s1, short), []);
    RunAppend(cfg, s, evicts, [short]);
    ls := evicts + [short];
  }

  /** Two requests for an object that is not archived in full, one of them to
      evict, lose all but the first `n` bytes of it. */
  lemma SecondWriteTruncates(cfg: Config, s: System, loc: Loc, evictor: nat, other: nat, n: nat)
    returns (ls: seq<Label>)
    requires evictor < |s.procs| && other < |s.procs| && evictor != other
    requires s.procs[evictor] == ArchiveStatLocal(loc, true)
    requires s.procs[other].ArchiveStatLocal? && s.procs[other].loc == loc
    requires cfg.InScope(loc.bucket) && loc in s.world.local && !Verified(cfg, s.world, loc)
    requires n < |s.world.local[loc]|
    ensures AllSucceed(ls)
    ensures var w' := Run(cfg, s, ls).world;
            && loc !in w'.local
            && w'.archive == s.world.archive[cfg.PlaceOf(loc) := s.world.local[loc][..n]]
  {
    var both := BothReachTheirWrites(cfg, s, loc, evictor, other);
    var rest := EvictsThenTruncates(cfg, Run(cfg, s, both), loc, evictor, other, n);
    RunAppend(cfg, s, both, rest);
    ls := both + rest;
  }

  lemma BothStart(s: System, p: Proc, q: Proc)
    requires s.procs == [] && Entry(ON, p) && Entry(ON, q)
    ensures Run(ON, s, [Spawn(p), Spawn(q)]) == s.(procs := [p, q])
  {
    var s1 := s.(procs := [p]);
    assert Next(ON, s, Spawn(p)).procs == [p];
    assert Next(ON, s1, Spawn(q)).procs == [p, q];
    var ls := [Spawn(p), Spawn(q)];
    assert ls[1..] == [Spawn(q)] && ls[1..][1..] == [];
    assert Run(ON, s, ls) == Run(ON, s1, ls[1..]);
    assert Run(ON, s1, ls[1..]) == Run(ON, Next(ON, s1, Spawn(q)), []);
  }

  /** Two archive requests for one object, from their start: both find no copy,
      one evicts on the strength of its full write, then the other's short write
      truncates it. */
  lemma TwoWritersLoseAnObject(content: Bytes, n: nat) returns (ls: seq<Label>)
    requires n < |content|
    ensures forall i :: 0 <= i < |ls| ==> StartsOrSucceeds(ls[i])
    ensures var s := System(World(map[OBJ := content], map[], []), map[OBJ := content], []);
            var s' := Run(ON, s, ls);
            && Invariant(ON, s) && OBJ !in s'.world.local
            && s'.world.archive == map[ON.PlaceOf(OBJ) := content[..n]]
  {
    var w := World(map[OBJ := content], map[], []);
    OnlyOBJ(w);
    var s := System(w, map[OBJ := content], []);
    var p, q := ArchiveStatLocal(OBJ, false), ArchiveStatLocal(OBJ, true);
    BothStart(s, p, q);
    var acts := SecondWriteTruncates(ON, s.(procs := [p, q]), OBJ, 1, 0, n);
    assert w.archive[ON.PlaceOf(OBJ) := content[..n]] == map[ON.PlaceOf(OBJ) := content[..n]];
    RunAppend(ON, s, [Spawn(p), Spawn(q)], acts);
    ls := [Spawn(p), Spawn(q)] + acts;
  }

  // ----- Exactly when several requests for one object are safe -------------------

  /** Nobody else joins: calls, whatever they do and report, and kills. */
  predicate NoNewActor(ls: seq<Label>) { forall l :: l in ls ==> !l.Spawn? }

  function Requests(loc: Loc, evicts: seq<bool>): (procs: seq<Proc>)
    ensures |procs| == |evicts|
    ensures forall i :: 0 <= i < |evicts| ==> procs[i] == ArchiveStatLocal(loc, evicts[i])
  {
    seq(|evicts|, i requires 0 <= i < |evicts| => ArchiveStatLocal(loc, evicts[i]))
  }

  /** What a set of requests for one object relies on: there is only one, none
      evicts, the object was archived at its size before, or it is empty. */
  datatype Setting = Setting(loc: Loc, content: Bytes, alone: bool, evicting: bool, archived: bool) {
    predicate Benign() { alone || !evicting || archived || content == [] }
  }

  predicate RequestWorld(cfg: Config, g: Setting, w: World) {
    && Held(cfg, w, g.loc, g.content)
    && (g.archived ==> FullyArchived(cfg, w, g.loc, g.content))
    && (!g.evicting ==> g.loc in w.local)
  }

  predicate RequestPoint(cfg: Config, g: Setting, w: World, p: Proc) {
    match p
    case Finished(_) => true
    case ArchiveStatLocal(l, e) => l == g.loc && (e ==> g.evicting) && (g.alone ==> l in w.local)
    case ArchiveConfirm(l) => l == g.loc
    case KnownVerify(l, n, e) => l == g.loc && n == |g.content| && (e ==> g.evicting) && (g.alone ==> l in w.local)
    case KnownOpen(l, n, e) =>
      l == g.loc && n == |g.content| && (e ==> g.evicting) && (g.alone ==> l in w.local) && !g.archived
    case KnownPut(l, n, e, content) =>
      && l == g.loc && n == |g.content| && (e ==> g.evicting) && (g.alone ==> l in w.local) && !g.archived
      && content == g.content
    case KnownReverify(l, n, e) => l == g.loc && n == |g.content| && (e ==> g.evicting) && (g.alone ==> l in w.local)
    case KnownEvict(l, n) => l == g.loc && g.evicting && FullyArchived(cfg, w, l, g.content)
    case _ => false
  }

  lemma RequestStep(cfg: Config, g: Setting, w: World, p: Proc, call: Call)
    requires cfg.InScope(g.loc.bucket) && g.Benign() && RequestWorld(cfg, g, w) && RequestPoint(cfg, g, w, p)
    ensures var (p', w') := Step(cfg, p, w, call);
            && RequestWorld(cfg, g, w') && RequestPoint(cfg, g, w', p')
            && (!g.alone && g.evicting && FullyArchived(cfg, w, g.loc, g.content) ==>
                  FullyArchived(cfg, w', g.loc, g.content))
  {
  }

  ghost predicate RequestState(cfg: Config, g: Setting, s: System) {
    && RequestWorld(cfg, g, s.world) && (g.alone ==> |s.procs| <= 1)
    && forall i :: 0 <= i < |s.procs| ==> RequestPoint(cfg, g, s.world, s.procs[i])
  }

  lemma {:induction false} RequestStages(cfg: Config, g: Setting, s: System, ls: seq<Label>)
    requires cfg.InScope(g.loc.bucket) && g.Benign() && RequestState(cfg, g, s) && NoNewActor(ls)
    ensures RequestState(cfg, g, Run(cfg, s, ls))
    decreases |ls|
  {
    if ls != [] {
      var l := ls[0];
      assert l in ls;
      if l.Act? && l.i < |s.procs| {
        RequestStep(cfg, g, s.world, s.procs[l.i], l.call);
        var s' := Next(cfg, s, l);
        forall j | 0 <= j < |s.procs| && j != l.i ensures RequestPoint(cfg, g, s'.world, s.procs[j]) {
          assert RequestPoint(cfg, g, s.world, s.procs[j]);
        }
      }
      RequestStages(cfg, g, Next(cfg, s, l), ls[1..]);
    }
  }

  /** Any number of archive requests for one local object, on any schedule, with
      calls that do and report whatever they like: the object is safe on every run
      if and only if there is at most one request, or none evicts, or the archive
      already verifies the object, or it is empty. */
  lemma RequestsAreSafeIff(cfg: Config, w: World, uploaded: map<Loc, Bytes>, loc: Loc, evicts: seq<bool>)
    requires cfg.InScope(loc.bucket) && Safe(cfg, w, uploaded) && loc in uploaded && loc in w.local
    ensures (forall ls: seq<Label> :: NoNewActor(ls) ==>
               Held(cfg, Run(cfg, System(w, uploaded, Requests(loc, evicts)), ls).world, loc, uploaded[loc])) <==>
              |evicts| <= 1 || true !in evicts || Verified(cfg, w, loc) || w.local[loc] == []
  {
    var content := uploaded[loc];
    assert Held(cfg, w, loc, content);
    SizeCheckIsContentCheck(cfg, w, uploaded, loc, Fine);
    var s := System(w, uploaded, Requests(loc, evicts));
    if |evicts| <= 1 || true !in evicts || Verified(cfg, w, loc) || w.local[loc] == [] {
      var g := Setting(loc, content, |evicts| <= 1, true in evicts, Verified(cfg, w, loc));
      forall i | 0 <= i < |s.procs| ensures RequestPoint(cfg, g, w, s.procs[i]) {
        assert evicts[i] in evicts;
      }
      forall ls: seq<Label> | NoNewActor(ls) ensures Held(cfg, Run(cfg, s, ls).world, loc, content) {
        RequestStages(cfg, g, s, ls);
      }
    } else {
      var evictor :| 0 <= evictor < |evicts| && evicts[evictor];
      var other := if evictor == 0 then 1 else 0;
      var ls := SecondWriteTruncates(cfg, s, loc, evictor, other, 0);
      assert NoNewActor(ls);
      assert !Held(cfg, Run(cfg, s, ls).world, loc, content);
    }
  }

  /** `RestoreObject` trusts the archive: a truncated copy replaces a good local one. */
  lemma RestoreLosesAnObject(content: Bytes, n: nat)
    requires n < |content|
    ensures var w := World(map[OBJ := content], map[ON.PlaceOf(OBJ) := content[..n]], []);
            var (res, w') := Solo(ON, RestoreEntry(ON, OBJ, n), w, AllFine, 0);
            && Safe(ON, w, map[OBJ := content])
            && res.outcome == Restored
            && w'.local == map[OBJ := content[..n]] && w'.archive == w.archive
  {
    var w := World(map[OBJ := content], map[ON.PlaceOf(OBJ) := content[..n]], []);
    OnlyOBJ(w);
    RestoreUndisturbed(ON, w, OBJ, n, 0);
    assert w.local[OBJ := content[..n]] == map[OBJ := content[..n]];
  }

  /** Exactly when restoring is safe under short writes: a copy that is still local
      has the archived size, so that it is left alone; it is then archived in full. */
  lemma RestoreIsSafeIff(cfg: Config, w: World, uploaded: map<Loc, Bytes>, loc: Loc)
    requires cfg.enabled && Safe(cfg, w, uploaded) && loc in uploaded && cfg.PlaceOf(loc) in w.archive
    ensures var archived := w.archive[cfg.PlaceOf(loc)];
            var w' := Solo(cfg, RestoreEntry(cfg, loc, |archived|), w, AllFine, 0).1;
            Held(cfg, w', loc, uploaded[loc]) <==> (loc in w.local ==> |w.local[loc]| == |archived|)
    ensures (loc in w.local ==> |w.local[loc]| == |w.archive[cfg.PlaceOf(loc)]|) <==>
              FullyArchived(cfg, w, loc, uploaded[loc])
  {
    assert Held(cfg, w, loc, uploaded[loc]);
    RestoreUndisturbed(cfg, w, loc, |w.archive[cfg.PlaceOf(loc)]|, 0);
  }
}
