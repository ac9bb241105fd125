/** The batch archive endpoint, over every schedule of its requests. */
module BatchArchive {
  import opened KeyMapping
  import opened Tiers
  import opened Schedules

  predicate AllLocal(w: World, bucket: string, keys: set<string>) {
    forall k :: k in keys ==> Loc(bucket, k) in w.local
  }

  ghost predicate PlaceOfSome(cfg: Config, bucket: string, keys: set<string>, q: Place) {
    exists k :: k in keys && q == cfg.PlaceOf(Loc(bucket, k))
  }

  predicate SamePlace(w: World, w': World, q: Place) {
    (q in w'.archive <==> q in w.archive) && (q in w.archive ==> w'.archive[q] == w.archive[q])
  }

  /** `w'` archives `loc`: the copy `w` had if that was verified, else its local bytes. */
  predicate ArchivedSince(cfg: Config, w: World, loc: Loc, w': World)
    requires loc in w.local
  {
    && cfg.PlaceOf(loc) in w'.archive
    && w'.archive[cfg.PlaceOf(loc)] == if Verified(cfg, w, loc) then w.archive[cfg.PlaceOf(loc)] else w.local[loc]
  }

  /** The archive of `w'` is that of `w` with the local copy of every key that was
      not verified, and nothing else, written to it. */
  ghost predicate ArchivedFrom(cfg: Config, w: World, bucket: string, keys: set<string>, w': World)
    requires AllLocal(w, bucket, keys)
  {
    && (forall k :: k in keys ==> ArchivedSince(cfg, w, Loc(bucket, k), w'))
    && (forall q :: !PlaceOfSome(cfg, bucket, keys, q) ==> SamePlace(w, w', q))
  }

  // ----- Where a request stands -------------------------------------------------------

  /** `ls` starts only archive requests, with the batch's `evict`. */
  predicate OnlyArchive(evict: bool, ls: seq<Label>) {
    forall l :: l in ls && l.Spawn? ==> l.p.ArchiveStatLocal? && l.p.evict == evict
  }

  predicate Requested(cfg: Config, loc: Loc) { cfg.InScope(loc.bucket) && NoSlash(loc.bucket) }

  /** The actor of an object that was local. What it knows stays true whatever the
      others do, those with the same object included. */
  predicate PresentPoint(cfg: Config, w0: World, evict: bool, w: World, p: Proc, loc: Loc)
    requires loc in w0.local
  {
    var size := |w0.local[loc]|;
    match p
    case ArchiveStatLocal(l, e) => l == loc && e == evict
    case ArchiveConfirm(l) => l == loc && loc !in w.local && evict && ArchivedSince(cfg, w0, loc, w)
    case KnownVerify(l, n, e) => l == loc && e == evict && n == size
    case KnownOpen(l, n, e) => l == loc && e == evict && n == size && !Verified(cfg, w0, loc)
    case KnownPut(l, n, e, content) =>
      l == loc && e == evict && n == size && !Verified(cfg, w0, loc) && content == w0.local[loc]
    case KnownReverify(l, n, e) => l == loc && e == evict && n == size && ArchivedSince(cfg, w0, loc, w)
    case KnownEvict(l, n) => l == loc && evict && n == size && ArchivedSince(cfg, w0, loc, w)
    case Finished(res) =>
      && ArchivedSince(cfg, w0, loc, w) && (evict ==> loc !in w.local)
      && (p == Done(evict, size) || (evict && TooLate(p, size)))
    case _ => false
  }

  /** The answer of the request that did the work. */
  function Done(evict: bool, size: nat): Proc { Finish(if evict then Archived else ArchivedKept, size) }

  /** The answers of a request whose object another one evicted meanwhile. */
  predicate TooLate(p: Proc, size: nat) { p == Finish(AlreadyArchived, 0) || p == Finish(Failed, size) }

  /** The actor of an object that was not local: it asks the archive. */
  predicate AbsentPoint(cfg: Config, w0: World, p: Proc, loc: Loc) {
    match p
    case ArchiveStatLocal(l, _) => l == loc
    case ArchiveConfirm(l) => l == loc
    case Finished(_) => p == Finish(if cfg.PlaceOf(loc) in w0.archive then AlreadyArchived else NotFound, 0)
    case _ => false
  }

  predicate RequestPoint(cfg: Config, w0: World, evict: bool, w: World, p: Proc, loc: Loc) {
    if loc in w0.local then PresentPoint(cfg, w0, evict, w, p, loc) else AbsentPoint(cfg, w0, p, loc)
  }

  // ----- What has become of the objects -------------------------------------------------

  /** Archived or as it was, and gone only if archived and meant to go. */
  predicate Stage(cfg: Config, w0: World, evict: bool, loc: Loc, w: World)
    requires loc in w0.local
  {
    && (loc in w.local ==> w.local[loc] == w0.local[loc])
    && (ArchivedSince(cfg, w0, loc, w) || SamePlace(w0, w, cfg.PlaceOf(loc)))
    && (loc !in w.local ==> evict && ArchivedSince(cfg, w0, loc, w))
  }

  /** Only the objects of `locs` that were local are touched. */
  ghost predicate OnlyTouched(cfg: Config, w0: World, locs: seq<Loc>, w: World) {
    && (forall l :: l in w.local ==> l in w0.local)
    && (forall l :: l in w0.local && l !in locs ==> l in w.local && w.local[l] == w0.local[l])
    && (forall q :: (forall l :: l in locs && l in w0.local ==> q != cfg.PlaceOf(l)) ==> SamePlace(w0, w, q))
  }

  /** An object is gone only once some request has answered for it. */
  ghost predicate Evictor(w0: World, s: System, locs: seq<Loc>, loc: Loc)
    requires loc in w0.local && |locs| == |s.procs|
  {
    exists j :: 0 <= j < |locs| && locs[j] == loc && s.procs[j] == Finish(Archived, |w0.local[loc]|)
  }

  ghost predicate Shared(locs: seq<Loc>, i: nat)
    requires i < |locs|
  {
    exists j :: 0 <= j < |locs| && j != i && locs[j] == locs[i]
  }

  /** Actor i works on `locs[i]`. */
  ghost predicate BatchState(cfg: Config, w0: World, evict: bool, s: System, locs: seq<Loc>) {
    && |locs| == |s.procs| && OnlyTouched(cfg, w0, locs, s.world)
    && (forall i :: 0 <= i < |locs| ==>
          Requested(cfg, locs[i]) && RequestPoint(cfg, w0, evict, s.world, s.procs[i], locs[i]))
    && (forall l :: l in w0.local && Requested(cfg, l) ==> Stage(cfg, w0, evict, l, s.world))
    && (forall l :: l in w0.local && l !in s.world.local ==> Evictor(w0, s, locs, l))
    && (forall i :: 0 <= i < |locs| && locs[i] in w0.local && TooLate(s.procs[i], |w0.local[locs[i]]|) ==>
          Shared(locs, i))
  }

  // ----- One call ------------------------------------------------------------------------

  /** A call that touches nothing but `loc`. */
  ghost predicate Touches(cfg: Config, loc: Loc, w: World, w': World) {
    && (forall l :: l in w'.local ==> l in w.local && w'.local[l] == w.local[l])
    && (forall l :: l in w.local && l != loc ==> l in w'.local)
    && (forall q :: q != cfg.PlaceOf(loc) ==> SamePlace(w, w', q))
  }

  lemma PresentStep(cfg: Config, w0: World, evict: bool, w: World, p: Proc, loc: Loc)
    requires Requested(cfg, loc) && loc in w0.local && !p.Finished?
    requires PresentPoint(cfg, w0, evict, w, p, loc) && Stage(cfg, w0, evict, loc, w)
    ensures var (p', w') := Step(cfg, p, w, Fine);
            && PresentPoint(cfg, w0, evict, w', p', loc) && Stage(cfg, w0, evict, loc, w') && Touches(cfg, loc, w, w')
            && (ArchivedSince(cfg, w0, loc, w) ==> ArchivedSince(cfg, w0, loc, w'))
            && (loc in w.local && loc !in w'.local ==> p' == Finish(Archived, |w0.local[loc]|))
            && (TooLate(p', |w0.local[loc]|) ==> loc !in w.local)
  {
  }

  lemma AbsentStep(cfg: Config, w0: World, w: World, p: Proc, loc: Loc)
    requires cfg.enabled && loc !in w0.local && loc !in w.local && SamePlace(w0, w, cfg.PlaceOf(loc))
    requires AbsentPoint(cfg, w0, p, loc)
    ensures Step(cfg, p, w, Fine).1 == w && AbsentPoint(cfg, w0, Step(cfg, p, w, Fine).0, loc)
  {
  }

  /** No request disturbs another, on the same object or not. */
  lemma OthersKeepTheirPoint(cfg: Config, w0: World, evict: bool, w: World, w': World, loc: Loc, p: Proc, other: Loc)
    requires Requested(cfg, loc) && Requested(cfg, other) && Touches(cfg, loc, w, w') && loc in w0.local
    requires ArchivedSince(cfg, w0, loc, w) ==> ArchivedSince(cfg, w0, loc, w')
    requires RequestPoint(cfg, w0, evict, w, p, other)
    ensures RequestPoint(cfg, w0, evict, w', p, other)
  {
    if other != loc {
      if cfg.PlaceOf(other) == cfg.PlaceOf(loc) {
        ResolveInjective(cfg.archiveBucket, other, loc);
      }
      assert SamePlace(w, w', cfg.PlaceOf(other));
    }
  }

  lemma OthersKeepTheirStage(cfg: Config, w0: World, evict: bool, w: World, w': World, loc: Loc, other: Loc)
    requires Requested(cfg, loc) && Requested(cfg, other) && Touches(cfg, loc, w, w') && other != loc
    requires other in w0.local && Stage(cfg, w0, evict, other, w)
    ensures Stage(cfg, w0, evict, other, w')
  {
    if cfg.PlaceOf(other) == cfg.PlaceOf(loc) {
      ResolveInjective(cfg.archiveBucket, other, loc);
    }
    assert SamePlace(w, w', cfg.PlaceOf(other));
  }

  lemma StillOnlyTouched(cfg: Config, w0: World, locs: seq<Loc>, w: World, loc: Loc, w': World)
    requires OnlyTouched(cfg, w0, locs, w) && Touches(cfg, loc, w, w') && loc in locs && loc in w0.local
    ensures OnlyTouched(cfg, w0, locs, w')
  {
    forall q | forall l :: l in locs && l in w0.local ==> q != cfg.PlaceOf(l) ensures SamePlace(w0, w', q) {
      assert SamePlace(w0, w, q) && q != cfg.PlaceOf(loc);
      assert SamePlace(w, w', q);
    }
  }

  lemma AbsentAct(cfg: Config, w0: World, evict: bool, s: System, locs: seq<Loc>, i: nat)
    requires BatchState(cfg, w0, evict, s, locs) && i < |locs| && locs[i] !in w0.local
    ensures BatchState(cfg, w0, evict, Next(cfg, s, Act(i, Fine)), locs)
  {
    var loc := locs[i];
    var s' := Next(cfg, s, Act(i, Fine));
    forall l | l in locs && l in w0.local ensures cfg.PlaceOf(loc) != cfg.PlaceOf(l) {
      var j :| 0 <= j < |locs| && locs[j] == l;
      assert Requested(cfg, locs[j]) && Requested(cfg, loc);
      if cfg.PlaceOf(loc) == cfg.PlaceOf(l) {
        ResolveInjective(cfg.archiveBucket, loc, l);
      }
    }
    AbsentStep(cfg, w0, s.world, s.procs[i], loc);
    forall l | l in w0.local && l !in s'.world.local ensures Evictor(w0, s', locs, l) {
      var j :| 0 <= j < |locs| && locs[j] == l && s.procs[j] == Finish(Archived, |w0.local[l]|);
      assert s'.procs[j] == s.procs[j];
    }
  }

  lemma EvictorStays(cfg: Config, w0: World, evict: bool, s: System, locs: seq<Loc>, i: nat, l: Loc)
    requires BatchState(cfg, w0, evict, s, locs) && i < |locs| && locs[i] in w0.local && !s.procs[i].Finished?
    requires l in w0.local && l !in Next(cfg, s, Act(i, Fine)).world.local
    ensures Evictor(w0, Next(cfg, s, Act(i, Fine)), locs, l)
  {
    var s' := Next(cfg, s, Act(i, Fine));
    PresentStep(cfg, w0, evict, s.world, s.procs[i], locs[i]);
    if l in s.world.local {
      assert l == locs[i] && s'.procs[i] == Finish(Archived, |w0.local[l]|);
    } else {
      var j :| 0 <= j < |locs| && locs[j] == l && s.procs[j] == Finish(Archived, |w0.local[l]|);
      assert s'.procs[j] == s.procs[j];
    }
  }

  lemma LateMeansShared(cfg: Config, w0: World, evict: bool, s: System, locs: seq<Loc>, i: nat)
    requires BatchState(cfg, w0, evict, s, locs) && i < |locs| && locs[i] in w0.local && !s.procs[i].Finished?
    requires TooLate(Next(cfg, s, Act(i, Fine)).procs[i], |w0.local[locs[i]]|)
    ensures Shared(locs, i)
  {
    PresentStep(cfg, w0, evict, s.world, s.procs[i], locs[i]);
    var j :| 0 <= j < |locs| && locs[j] == locs[i] && s.procs[j] == Finish(Archived, |w0.local[locs[i]]|);
    assert j != i;
  }

  lemma PresentAct(cfg: Config, w0: World, evict: bool, s: System, locs: seq<Loc>, i: nat)
    requires BatchState(cfg, w0, evict, s, locs) && i < |locs| && locs[i] in w0.local && !s.procs[i].Finished?
    ensures BatchState(cfg, w0, evict, Next(cfg, s, Act(i, Fine)), locs)
  {
    var s' := Next(cfg, s, Act(i, Fine));
    var loc := locs[i];
    PresentStep(cfg, w0, evict, s.world, s.procs[i], loc);
    StillOnlyTouched(cfg, w0, locs, s.world, loc, s'.world);
    forall j | 0 <= j < |locs| ensures RequestPoint(cfg, w0, evict, s'.world, s'.procs[j], locs[j]) {
      if j != i {
        OthersKeepTheirPoint(cfg, w0, evict, s.world, s'.world, loc, s.procs[j], locs[j]);
      }
    }
    forall l | l in w0.local && Requested(cfg, l) ensures Stage(cfg, w0, evict, l, s'.world) {
      if l != loc {
        OthersKeepTheirStage(cfg, w0, evict, s.world, s'.world, loc, l);
      }
    }
    forall l | l in w0.local && l !in s'.world.local ensures Evictor(w0, s', locs, l) {
      EvictorStays(cfg, w0, evict, s, locs, i, l);
    }
    forall j | 0 <= j < |locs| && locs[j] in w0.local && TooLate(s'.procs[j], |w0.local[locs[j]]|)
      ensures Shared(locs, j)
    {
      if j == i {
        LateMeansShared(cfg, w0, evict, s, locs, i);
      }
    }
  }

  lemma BatchSpawn(cfg: Config, w0: World, evict: bool, s: System, locs: seq<Loc>, p: Proc)
    requires BatchState(cfg, w0, evict, s, locs)
    requires p.ArchiveStatLocal? && p.evict == evict && Requested(cfg, p.loc)
    ensures BatchState(cfg, w0, evict, Next(cfg, s, Spawn(p)), locs + [p.loc])
  {
    var locs', s' := locs + [p.loc], Next(cfg, s, Spawn(p));
    assert s'.procs == s.procs + [p];
    forall l | l in w0.local && l !in s'.world.local ensures Evictor(w0, s', locs', l) {
      var j :| 0 <= j < |locs| && locs[j] == l && s.procs[j] == Finish(Archived, |w0.local[l]|);
      assert locs'[j] == l && s'.procs[j] == s.procs[j];
    }
    forall i | 0 <= i < |locs'| && locs'[i] in w0.local && TooLate(s'.procs[i], |w0.local[locs'[i]]|)
      ensures Shared(locs', i)
    {
      var j :| 0 <= j < |locs| && j != i && locs[j] == locs[i];
      assert locs'[j] == locs'[i];
    }
  }

  // ----- Every schedule -------------------------------------------------------------------

  lemma BatchNext(cfg: Config, w0: World, evict: bool, s: System, locs: seq<Loc>, l: Label)
    requires BatchState(cfg, w0, evict, s, locs) && !l.Crash?
    requires l.Spawn? ==> l.p.ArchiveStatLocal? && l.p.evict == evict && Requested(cfg, l.p.loc)
    requires l.Act? ==> l.call == Fine
    ensures BatchState(cfg, w0, evict, Next(cfg, s, l), Extended(locs, l))
  {
    if l.Spawn? {
      BatchSpawn(cfg, w0, evict, s, locs, l.p);
    } else if l.i < |s.procs| {
      if locs[l.i] !in w0.local {
        AbsentAct(cfg, w0, evict, s, locs, l.i);
      } else if !s.procs[l.i].Finished? {
        PresentAct(cfg, w0, evict, s, locs, l.i);
      } else {
        assert Next(cfg, s, l).procs == s.procs;
      }
    }
  }

  lemma {:induction false} BatchStages(cfg: Config, w0: World, evict: bool, s: System, locs: seq<Loc>, ls: seq<Label>)
    requires BatchState(cfg, w0, evict, s, locs)
    requires OnlyArchive(evict, ls) && FaultFree(ls) && Unkilled(ls)
    requires forall l :: l in Started(ls) ==> Requested(cfg, l)
    ensures BatchState(cfg, w0, evict, Run(cfg, s, ls), locs + Started(ls))
    decreases |ls|
  {
    if ls == [] {
      assert locs + Started(ls) == locs;
    } else {
      var l := ls[0];
      assert l in ls && (l.Spawn? ==> l.p.loc in Started(ls));
      StartedStep(locs, ls);
      BatchNext(cfg, w0, evict, s, locs, l);
      BatchStages(cfg, w0, evict, Next(cfg, s, l), Extended(locs, l), ls[1..]);
    }
  }

  /** The keys of a batch that are local. */
  function Present(w: World, bucket: string, keys: set<string>): (present: set<string>)
    ensures AllLocal(w, bucket, present)
  {
    set k | k in keys && Loc(bucket, k) in w.local
  }

  /** What is left of local storage: the objects of `keys` go when evicting. */
  function Remaining(local: map<Loc, Bytes>, bucket: string, keys: set<string>, evict: bool): map<Loc, Bytes> {
    map l | l in local && !(evict && l.bucket == bucket && l.key in keys) :: local[l]
  }

  lemma AllArchived(cfg: Config, w0: World, bucket: string, keys: set<string>, evict: bool, s: System, locs: seq<Loc>)
    requires BatchState(cfg, w0, evict, s, locs) && AllFinished(s)
    requires forall l :: l in locs ==> l.bucket == bucket && l.key in keys
    requires forall k :: k in keys ==> Loc(bucket, k) in locs
    ensures ArchivedFrom(cfg, w0, bucket, Present(w0, bucket, keys), s.world)
    ensures s.world.local == Remaining(w0.local, bucket, keys, evict)
  {
    forall l | l in locs && l in w0.local
      ensures ArchivedSince(cfg, w0, l, s.world) && (l in s.world.local <==> !evict)
      ensures l in s.world.local ==> s.world.local[l] == w0.local[l]
    {
      var i :| 0 <= i < |locs| && locs[i] == l;
      assert s.procs[i].Finished? && RequestPoint(cfg, w0, evict, s.world, s.procs[i], l);
      assert Requested(cfg, locs[i]) && Stage(cfg, w0, evict, l, s.world);
    }
    forall q | !PlaceOfSome(cfg, bucket, Present(w0, bucket, keys), q) ensures SamePlace(w0, s.world, q) {
      forall l | l in locs && l in w0.local ensures q != cfg.PlaceOf(l) {
        assert l == Loc(bucket, l.key) && l.key in Present(w0, bucket, keys);
      }
    }
    forall l ensures l in s.world.local <==> l in Remaining(w0.local, bucket, keys, evict) {
      assert l.bucket == bucket && l.key in keys ==> Loc(bucket, l.key) in locs;
    }
  }

  /** What request i of a batch may answer. */
  ghost predicate Answer(cfg: Config, w0: World, evict: bool, locs: seq<Loc>, i: nat, p: Proc)
    requires i < |locs|
  {
    var loc := locs[i];
    if loc in w0.local then
      p == Done(evict, |w0.local[loc]|) || (evict && Shared(locs, i) && TooLate(p, |w0.local[loc]|))
    else p == Finish(if cfg.PlaceOf(loc) in w0.archive then AlreadyArchived else NotFound, 0)
  }

  /** The endpoint over any schedule, for any keys, repeated or absent ones
      included: every object that was local is archived, and evicted when asked;
      nothing else is touched. Each answer stands at its own index: a request says
      that it did the work unless another request for the same key evicted first,
      and one does say so for every key; for an object that was not local it says
      whether the archive has it. */
  lemma BatchArchives(cfg: Config, w0: World, bucket: string, keys: set<string>, evict: bool, ls: seq<Label>)
    requires cfg.InScope(bucket) && NoSlash(bucket)
    requires OnlyArchive(evict, ls) && Covers(bucket, keys, ls) && Complete(cfg, Fresh(w0), ls)
    ensures var s, locs := Run(cfg, Fresh(w0), ls), Started(ls);
            && ArchivedFrom(cfg, w0, bucket, Present(w0, bucket, keys), s.world)
            && s.world.local == Remaining(w0.local, bucket, keys, evict)
            && |s.procs| == |locs|
            && (forall i :: 0 <= i < |locs| ==> Answer(cfg, w0, evict, locs, i, s.procs[i]))
            && (evict ==> forall k :: k in Present(w0, bucket, keys) ==> Evictor(w0, s, locs, Loc(bucket, k)))
  {
    var locs := Started(ls);
    forall l | l in locs ensures Requested(cfg, l) {
      assert l == Loc(bucket, l.key);
    }
    assert [] + locs == locs;
    BatchStages(cfg, w0, evict, Fresh(w0), [], ls);
    var s := Run(cfg, Fresh(w0), ls);
    AllArchived(cfg, w0, bucket, keys, evict, s, locs);
    forall i | 0 <= i < |locs| ensures Answer(cfg, w0, evict, locs, i, s.procs[i]) {
      assert s.procs[i].Finished? && RequestPoint(cfg, w0, evict, s.world, s.procs[i], locs[i]);
    }
  }
}
