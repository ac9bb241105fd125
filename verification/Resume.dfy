/** A backfill can be stopped anywhere, in any way, and run again. */
module Resume {
  import opened KeyMapping
  import opened Tiers
  import opened Schedules
  import opened BatchArchive
  import opened Commands
  import opened Sums

  // ----- An interrupted run --------------------------------------------------------

  /** `w` is some stage of backfilling `keys` from `w0`, however broken the calls:
      the local tier is untouched, and an archive entry is either as it was or a
      prefix of a local object that `w0` did not have archived. */
  ghost predicate InProgress(cfg: Config, w0: World, bucket: string, keys: set<string>, w: World)
    requires AllLocal(w0, bucket, keys)
  {
    && w.local == w0.local
    && (forall q :: q in w0.archive ==> q in w.archive)
    && (forall q :: q in w.archive ==>
          || (q in w0.archive && w.archive[q] == w0.archive[q])
          || exists k :: k in keys && PartlyWritten(cfg, w0, Loc(bucket, k), q, w.archive[q]))
  }

  predicate PartlyWritten(cfg: Config, w0: World, loc: Loc, q: Place, stored: Bytes)
    requires loc in w0.local
  {
    q == cfg.PlaceOf(loc) && !Verified(cfg, w0, loc) && stored <= w0.local[loc]
  }

  ghost predicate ProcInProgress(cfg: Config, w0: World, bucket: string, keys: set<string>, p: Proc)
    requires AllLocal(w0, bucket, keys)
  {
    match p
    case Finished(_) => true
    case BackfillList(l) => l.bucket == bucket && l.key in keys
    case KnownVerify(l, size, evict) =>
      l.bucket == bucket && l.key in keys && !evict && size == |w0.local[Loc(bucket, l.key)]|
    case KnownOpen(l, _, evict) =>
      l.bucket == bucket && l.key in keys && !evict && !Verified(cfg, w0, Loc(bucket, l.key))
    case KnownPut(l, _, evict, content) =>
      && l.bucket == bucket && l.key in keys && !evict && !Verified(cfg, w0, Loc(bucket, l.key))
      && content == w0.local[Loc(bucket, l.key)]
    case KnownReverify(l, _, evict) => l.bucket == bucket && l.key in keys && !evict
    case _ => false
  }

  ghost predicate BackfillState(cfg: Config, w0: World, bucket: string, keys: set<string>, s: System)
    requires AllLocal(w0, bucket, keys)
  {
    && InProgress(cfg, w0, bucket, keys, s.world)
    && forall i :: 0 <= i < |s.procs| ==> ProcInProgress(cfg, w0, bucket, keys, s.procs[i])
  }

  /** An object archived before the run stays verified throughout it. */
  lemma StaysVerified(cfg: Config, w0: World, bucket: string, keys: set<string>, w: World, k: string)
    requires NoSlash(bucket) && AllLocal(w0, bucket, keys) && k in keys
    requires InProgress(cfg, w0, bucket, keys, w) && Verified(cfg, w0, Loc(bucket, k))
    ensures cfg.PlaceOf(Loc(bucket, k)) in w.archive
    ensures w.archive[cfg.PlaceOf(Loc(bucket, k))] == w0.archive[cfg.PlaceOf(Loc(bucket, k))]
  {
    forall k' | k' in keys && cfg.PlaceOf(Loc(bucket, k')) == cfg.PlaceOf(Loc(bucket, k)) ensures k' == k {
      ResolveInjective(cfg.archiveBucket, Loc(bucket, k'), Loc(bucket, k));
    }
  }

  lemma BackfillStep(cfg: Config, w0: World, bucket: string, keys: set<string>, w: World, p: Proc, call: Call)
    requires cfg.enabled && NoSlash(bucket) && AllLocal(w0, bucket, keys)
    requires InProgress(cfg, w0, bucket, keys, w) && ProcInProgress(cfg, w0, bucket, keys, p)
    ensures InProgress(cfg, w0, bucket, keys, Step(cfg, p, w, call).1)
    ensures ProcInProgress(cfg, w0, bucket, keys, Step(cfg, p, w, call).0)
  {
    if !p.Finished? {
      var l := p.loc;
      assert l == Loc(bucket, l.key);
      if Verified(cfg, w0, l) {
        StaysVerified(cfg, w0, bucket, keys, w, l.key);
      }
      if p.KnownPut? {
        var w' := ArchivePut(cfg, w, l, p.content, call);
        var q := cfg.PlaceOf(l);
        assert q in w'.archive && w'.archive != w.archive ==>
               PartlyWritten(cfg, w0, Loc(bucket, l.key), q, w'.archive[q]);
      }
    }
  }

  /** Any schedule of backfill workers over `keys`, each call doing whatever it
      likes, with workers killed at any point. */
  predicate OnlyBackfill(bucket: string, keys: set<string>, ls: seq<Label>) {
    forall l :: l in ls && l.Spawn? ==> l.p.BackfillList? && l.p.loc.bucket == bucket && l.p.loc.key in keys
  }

  lemma {:induction false} BackfillStages(cfg: Config, w0: World, bucket: string, keys: set<string>, s: System,
                                          ls: seq<Label>)
    requires cfg.enabled && NoSlash(bucket) && AllLocal(w0, bucket, keys)
    requires BackfillState(cfg, w0, bucket, keys, s) && OnlyBackfill(bucket, keys, ls)
    ensures BackfillState(cfg, w0, bucket, keys, Run(cfg, s, ls))
    decreases |ls|
  {
    if ls != [] {
      var l := ls[0];
      assert l in ls;
      if l.Act? && l.i < |s.procs| {
        assert ProcInProgress(cfg, w0, bucket, keys, s.procs[l.i]);
        BackfillStep(cfg, w0, bucket, keys, s.world, s.procs[l.i], l.call);
      }
      assert forall i :: 0 <= i < |s.procs| ==> ProcInProgress(cfg, w0, bucket, keys, s.procs[i]);
      BackfillStages(cfg, w0, bucket, keys, Next(cfg, s, l), ls[1..]);
    }
  }

  lemma RerunFillsPlace(cfg: Config, w0: World, bucket: string, keys: set<string>, w: World, k: string)
    requires cfg.enabled && NoSlash(bucket) && AllLocal(w0, bucket, keys) && k in keys
    requires InProgress(cfg, w0, bucket, keys, w)
    ensures var loc := Loc(bucket, k);
            && loc in w.local
            && (Verified(cfg, w, loc) ==>
                  w.archive[cfg.PlaceOf(loc)] ==
                    if Verified(cfg, w0, loc) then w0.archive[cfg.PlaceOf(loc)] else w0.local[loc])
            && (!Verified(cfg, w, loc) ==> !Verified(cfg, w0, loc))
  {
    var loc := Loc(bucket, k);
    if Verified(cfg, w0, loc) {
      StaysVerified(cfg, w0, bucket, keys, w, k);
    } else if Verified(cfg, w, loc) {
      var q := cfg.PlaceOf(loc);
      var k' :| k' in keys && PartlyWritten(cfg, w0, Loc(bucket, k'), q, w.archive[q]);
      ResolveInjective(cfg.archiveBucket, loc, Loc(bucket, k'));
    }
  }

  // ----- A whole run -----------------------------------------------------------------

  /** An actor that is done, or about to check its own write, has an archived object. */
  predicate Settled(cfg: Config, w: World, p: Proc, loc: Loc) {
    && loc in w.local
    && match p
       case Finished(res) => res == TierResult(ArchivedKept, |w.local[loc]|) && Verified(cfg, w, loc)
       case KnownVerify(l, n, _) => l == loc && n == |w.local[loc]|
       case KnownOpen(l, n, _) => l == loc && n == |w.local[loc]|
       case KnownPut(l, n, _, _) => l == loc && n == |w.local[loc]|
       case KnownReverify(l, n, _) => l == loc && n == |w.local[loc]| && Verified(cfg, w, loc)
       case _ => p.loc == loc
  }

  /** Actor i works on `locs[i]`. */
  ghost predicate WholeState(cfg: Config, w0: World, bucket: string, keys: set<string>, s: System, locs: seq<Loc>)
    requires AllLocal(w0, bucket, keys)
  {
    && BackfillState(cfg, w0, bucket, keys, s) && |locs| == |s.procs|
    && forall i :: 0 <= i < |locs| ==>
         locs[i].bucket == bucket && locs[i].key in keys && Settled(cfg, s.world, s.procs[i], locs[i])
  }

  lemma VerifiedLasts(cfg: Config, w0: World, bucket: string, keys: set<string>, w: World, p: Proc, loc: Loc)
    requires cfg.enabled && NoSlash(bucket) && AllLocal(w0, bucket, keys) && loc in w.local && loc.bucket == bucket
    requires InProgress(cfg, w0, bucket, keys, w) && ProcInProgress(cfg, w0, bucket, keys, p)
    requires Verified(cfg, w, loc)
    ensures var w' := Step(cfg, p, w, Fine).1;
            w'.local == w.local && Verified(cfg, w', loc)
  {
    if p.KnownPut? && cfg.PlaceOf(p.loc) == cfg.PlaceOf(loc) {
      ResolveInjective(cfg.archiveBucket, p.loc, loc);
    }
  }

  lemma SettledStep(cfg: Config, w0: World, bucket: string, keys: set<string>, w: World, p: Proc, loc: Loc)
    requires cfg.InScope(bucket) && NoSlash(bucket) && AllLocal(w0, bucket, keys)
    requires loc.bucket == bucket && loc.key in keys
    requires InProgress(cfg, w0, bucket, keys, w) && ProcInProgress(cfg, w0, bucket, keys, p) && Settled(cfg, w, p, loc)
    ensures var (p', w') := Step(cfg, p, w, Fine);
            Settled(cfg, w', p', loc)
  {
    assert loc == Loc(bucket, loc.key);
  }

  lemma WholeAct(cfg: Config, w0: World, bucket: string, keys: set<string>, s: System, locs: seq<Loc>, i: nat)
    requires cfg.InScope(bucket) && NoSlash(bucket) && AllLocal(w0, bucket, keys)
    requires WholeState(cfg, w0, bucket, keys, s, locs) && i < |locs|
    ensures WholeState(cfg, w0, bucket, keys, Next(cfg, s, Act(i, Fine)), locs)
  {
    var p := s.procs[i];
    var s' := Next(cfg, s, Act(i, Fine));
    assert ProcInProgress(cfg, w0, bucket, keys, p);
    BackfillStep(cfg, w0, bucket, keys, s.world, p, Fine);
    SettledStep(cfg, w0, bucket, keys, s.world, p, locs[i]);
    forall j | 0 <= j < |locs| && j != i ensures Settled(cfg, s'.world, s.procs[j], locs[j]) {
      assert Settled(cfg, s.world, s.procs[j], locs[j]);
      if Verified(cfg, s.world, locs[j]) {
        VerifiedLasts(cfg, w0, bucket, keys, s.world, p, locs[j]);
      }
    }
  }

  lemma WholeNext(cfg: Config, w0: World, bucket: string, keys: set<string>, s: System, locs: seq<Loc>, l: Label)
    requires cfg.InScope(bucket) && NoSlash(bucket) && AllLocal(w0, bucket, keys)
    requires WholeState(cfg, w0, bucket, keys, s, locs) && !l.Crash?
    requires l.Spawn? ==> l.p.BackfillList? && l.p.loc.bucket == bucket && l.p.loc.key in keys
    requires l.Act? ==> l.call == Fine
    ensures WholeState(cfg, w0, bucket, keys, Next(cfg, s, l), Extended(locs, l))
  {
    if l.Spawn? {
      assert l.p.loc == Loc(bucket, l.p.loc.key);
      assert Next(cfg, s, l).procs == s.procs + [l.p];
    } else if l.i < |s.procs| {
      WholeAct(cfg, w0, bucket, keys, s, locs, l.i);
    }
  }

  lemma {:induction false} WholeStages(cfg: Config, w0: World, bucket: string, keys: set<string>, s: System,
                                       locs: seq<Loc>, ls: seq<Label>)
    requires cfg.InScope(bucket) && NoSlash(bucket) && AllLocal(w0, bucket, keys)
    requires WholeState(cfg, w0, bucket, keys, s, locs)
    requires OnlyBackfill(bucket, keys, ls) && FaultFree(ls) && Unkilled(ls)
    ensures WholeState(cfg, w0, bucket, keys, Run(cfg, s, ls), locs + Started(ls))
    decreases |ls|
  {
    if ls == [] {
      assert locs + Started(ls) == locs;
    } else {
      assert ls[0] in ls;
      StartedStep(locs, ls);
      WholeNext(cfg, w0, bucket, keys, s, locs, ls[0]);
      WholeStages(cfg, w0, bucket, keys, Next(cfg, s, ls[0]), Extended(locs, ls[0]), ls[1..]);
    }
  }

  /** The command over any schedule of its workers, to its end: no call fails, no
      worker is killed, and every listed object has been handled. */
  ghost predicate WholeBackfill(cfg: Config, bucket: string, keys: set<string>, w: World, ls: seq<Label>) {
    OnlyBackfill(bucket, keys, ls) && Covers(bucket, keys, ls) && Complete(cfg, Fresh(w), ls)
  }

  lemma AllBackfilled(cfg: Config, w: World, bucket: string, keys: set<string>, s: System, locs: seq<Loc>)
    requires cfg.enabled && NoSlash(bucket) && AllLocal(w, bucket, keys)
    requires WholeState(cfg, w, bucket, keys, s, locs) && AllFinished(s)
    requires forall k :: k in keys ==> Loc(bucket, k) in locs
    ensures s.world.local == w.local && ArchivedFrom(cfg, w, bucket, keys, s.world)
    ensures forall k :: k in keys ==> Verified(cfg, s.world, Loc(bucket, k))
  {
    forall k | k in keys
      ensures Verified(cfg, s.world, Loc(bucket, k)) && ArchivedSince(cfg, w, Loc(bucket, k), s.world)
    {
      var i :| 0 <= i < |locs| && locs[i] == Loc(bucket, k);
      assert s.procs[i].Finished? && Settled(cfg, s.world, s.procs[i], locs[i]);
      RerunFillsPlace(cfg, w, bucket, keys, s.world, k);
    }
    forall q | !PlaceOfSome(cfg, bucket, keys, q) ensures SamePlace(w, s.world, q) {
      assert forall k :: k in keys ==> q != cfg.PlaceOf(Loc(bucket, k));
    }
  }

  /** A whole run archives exactly what was not archived, keeps local storage as
      it is, and every worker says so. */
  lemma BackfillArchives(cfg: Config, w: World, bucket: string, keys: set<string>, ls: seq<Label>)
    requires cfg.InScope(bucket) && NoSlash(bucket) && AllLocal(w, bucket, keys)
    requires WholeBackfill(cfg, bucket, keys, w, ls)
    ensures var s := Run(cfg, Fresh(w), ls);
            && s.world.local == w.local && ArchivedFrom(cfg, w, bucket, keys, s.world)
            && (forall k :: k in keys ==> Verified(cfg, s.world, Loc(bucket, k)))
            && |s.procs| == |Started(ls)|
            && forall i :: 0 <= i < |s.procs| ==>
                 && Started(ls)[i] in w.local
                 && s.procs[i] == Finish(ArchivedKept, |w.local[Started(ls)[i]]|)
  {
    var locs := Started(ls);
    WholeStages(cfg, w, bucket, keys, Fresh(w), [], ls);
    assert [] + locs == locs;
    var s := Run(cfg, Fresh(w), ls);
    AllBackfilled(cfg, w, bucket, keys, s, locs);
    forall i | 0 <= i < |s.procs|
      ensures locs[i] in w.local && s.procs[i] == Finish(ArchivedKept, |w.local[locs[i]]|)
    {
      assert s.procs[i].Finished? && Settled(cfg, s.world, s.procs[i], locs[i]);
    }
  }

  function SizeIn(local: map<Loc, Bytes>): Loc -> nat { l => if l in local then |local[l]| else 0 }

  lemma {:induction false} TallyOfKept(procs: seq<Proc>, locs: seq<Loc>, local: map<Loc, Bytes>)
    requires |procs| == |locs|
    requires forall i :: 0 <= i < |locs| ==> locs[i] in local && procs[i] == Finish(ArchivedKept, |local[locs[i]]|)
    ensures TallyBackfill(procs) == Stats(|locs|, |locs|, 0, 0, Sum(locs, SizeIn(local)))
    decreases |procs|
  {
    if procs != [] {
      var n := |procs| - 1;
      TallyOfKept(procs[..n], locs[..n], local);
      SumLast(locs, SizeIn(local));
    }
  }

  /** What a whole run reports: everything listed was uploaded, nothing was skipped
      or failed, and the bytes are those of the listed objects. */
  lemma BackfillCounts(cfg: Config, w: World, bucket: string, keys: set<string>, ls: seq<Label>)
    requires cfg.InScope(bucket) && NoSlash(bucket) && AllLocal(w, bucket, keys)
    requires WholeBackfill(cfg, bucket, keys, w, ls)
    ensures var n := |Started(ls)|;
            TallyBackfill(Run(cfg, Fresh(w), ls).procs) == Stats(n, n, 0, 0, Sum(Started(ls), SizeIn(w.local)))
  {
    BackfillArchives(cfg, w, bucket, keys, ls);
    TallyOfKept(Run(cfg, Fresh(w), ls).procs, Started(ls), w.local);
  }

  lemma SameArchive(cfg: Config, w0: World, bucket: string, keys: set<string>, w: World, again: World, once: World)
    requires cfg.enabled && NoSlash(bucket) && AllLocal(w0, bucket, keys)
    requires InProgress(cfg, w0, bucket, keys, w)
    requires ArchivedFrom(cfg, w, bucket, keys, again) && ArchivedFrom(cfg, w0, bucket, keys, once)
    ensures again.archive == once.archive
  {
    forall q ensures q in again.archive <==> q in once.archive
             ensures q in once.archive ==> again.archive[q] == once.archive[q]
    {
      if k :| k in keys && q == cfg.PlaceOf(Loc(bucket, k)) {
        RerunFillsPlace(cfg, w0, bucket, keys, w, k);
      } else {
        assert !PlaceOfSome(cfg, bucket, keys, q);
      }
    }
  }

  // ----- The theorems ----------------------------------------------------------------

  /** However the first run was scheduled, failed, wrote short or was killed, a
      whole second run on any schedule leaves the archive of one uninterrupted run
      on any schedule, and the local tier as it was before either. */
  lemma InterruptedBackfillResumes(cfg: Config, w0: World, bucket: string, keys: set<string>,
                                   first: seq<Label>, again: seq<Label>, once: seq<Label>)
    requires cfg.InScope(bucket) && NoSlash(bucket) && AllLocal(w0, bucket, keys)
    requires OnlyBackfill(bucket, keys, first)
    requires WholeBackfill(cfg, bucket, keys, Run(cfg, Fresh(w0), first).world, again)
    requires WholeBackfill(cfg, bucket, keys, w0, once)
    ensures var resumed := Run(cfg, Fresh(Run(cfg, Fresh(w0), first).world), again).world;
            var uninterrupted := Run(cfg, Fresh(w0), once).world;
            && resumed.archive == uninterrupted.archive
            && resumed.local == uninterrupted.local == w0.local
  {
    BackfillStages(cfg, w0, bucket, keys, Fresh(w0), first);
    var w1 := Run(cfg, Fresh(w0), first).world;
    BackfillArchives(cfg, w1, bucket, keys, again);
    BackfillArchives(cfg, w0, bucket, keys, once);
    SameArchive(cfg, w0, bucket, keys, w1, Run(cfg, Fresh(w1), again).world, Run(cfg, Fresh(w0), once).world);
  }

  // ----- Nothing is uploaded twice ---------------------------------------------------

  function Uploads(w: World, q: Place): nat { multiset(w.puts)[q] }

  /** Since `w0`, exactly the objects that have become verified were uploaded, once each. */
  ghost predicate UploadedOnce(cfg: Config, w0: World, bucket: string, keys: set<string>, w: World)
    requires AllLocal(w0, bucket, keys) && w.local == w0.local
  {
    && (forall k :: k in keys ==> UploadedIfVerified(cfg, w0, Loc(bucket, k), w))
    && (forall q :: !PlaceOfSome(cfg, bucket, keys, q) ==> Uploads(w, q) == Uploads(w0, q))
  }

  predicate UploadedIfVerified(cfg: Config, w0: World, loc: Loc, w: World)
    requires loc in w0.local && loc in w.local
  {
    Uploads(w, cfg.PlaceOf(loc)) ==
      Uploads(w0, cfg.PlaceOf(loc)) + if Verified(cfg, w, loc) && !Verified(cfg, w0, loc) then 1 else 0
  }

  /** A worker about to write is one whose object is not archived. */
  predicate WritesUnverified(cfg: Config, w: World, p: Proc) {
    (p.KnownOpen? || p.KnownPut?) && p.loc in w.local ==> !Verified(cfg, w, p.loc)
  }

  /** No two workers have the same object, now or later in `ls`. */
  ghost predicate Separate(s: System, ls: seq<Label>) {
    && (forall i, j :: 0 <= i < j < |s.procs| ==> Apart(s.procs[i], s.procs[j]))
    && (forall i, l :: 0 <= i < |s.procs| && l in ls && l.Spawn? ==> Apart(s.procs[i], l.p))
    && (forall i, j :: 0 <= i < j < |ls| && ls[i].Spawn? && ls[j].Spawn? ==> Apart(ls[i].p, ls[j].p))
  }

  predicate Apart(p: Proc, p': Proc) { p.Finished? || p'.Finished? || p.loc != p'.loc }

  /** A fault-free write of an object that was not verified makes it so, and is one
      upload of it and of nothing else. */
  lemma UploadCounts(cfg: Config, w0: World, bucket: string, keys: set<string>, w: World, loc: Loc)
    requires cfg.enabled && NoSlash(bucket) && AllLocal(w0, bucket, keys) && w.local == w0.local
    requires loc.bucket == bucket && loc.key in keys && loc in w0.local
    requires UploadedOnce(cfg, w0, bucket, keys, w) && !Verified(cfg, w0, loc) && !Verified(cfg, w, loc)
    ensures UploadedOnce(cfg, w0, bucket, keys, ArchivePut(cfg, w, loc, w0.local[loc], Fine))
  {
    var w' := ArchivePut(cfg, w, loc, w0.local[loc], Fine);
    assert loc == Loc(bucket, loc.key) && UploadedIfVerified(cfg, w0, loc, w);
    forall k | k in keys && k != loc.key ensures UploadedIfVerified(cfg, w0, Loc(bucket, k), w') {
      assert UploadedIfVerified(cfg, w0, Loc(bucket, k), w);
      if cfg.PlaceOf(Loc(bucket, k)) == cfg.PlaceOf(loc) {
        ResolveInjective(cfg.archiveBucket, Loc(bucket, k), loc);
      }
    }
    assert UploadedIfVerified(cfg, w0, loc, w');
  }

  lemma UploadStep(cfg: Config, w0: World, bucket: string, keys: set<string>, w: World, p: Proc)
    requires cfg.enabled && NoSlash(bucket) && AllLocal(w0, bucket, keys)
    requires InProgress(cfg, w0, bucket, keys, w) && ProcInProgress(cfg, w0, bucket, keys, p)
    requires UploadedOnce(cfg, w0, bucket, keys, w) && WritesUnverified(cfg, w, p)
    ensures var (p', w') := Step(cfg, p, w, Fine);
            w'.local == w.local && UploadedOnce(cfg, w0, bucket, keys, w') && WritesUnverified(cfg, w', p')
  {
    if p.KnownPut? {
      assert p.loc == Loc(bucket, p.loc.key);
      UploadCounts(cfg, w0, bucket, keys, w, p.loc);
    }
  }

  lemma OthersStayUnverified(cfg: Config, w0: World, bucket: string, keys: set<string>, w: World, p: Proc, other: Proc)
    requires NoSlash(bucket) && AllLocal(w0, bucket, keys)
    requires ProcInProgress(cfg, w0, bucket, keys, p) && ProcInProgress(cfg, w0, bucket, keys, other)
    requires Apart(p, other) && WritesUnverified(cfg, w, other)
    ensures WritesUnverified(cfg, Step(cfg, p, w, Fine).1, other)
  {
    if p.KnownPut? && !other.Finished? && cfg.PlaceOf(p.loc) == cfg.PlaceOf(other.loc) {
      ResolveInjective(cfg.archiveBucket, p.loc, other.loc);
    }
  }

  ghost predicate UploadState(cfg: Config, w0: World, bucket: string, keys: set<string>, s: System)
    requires AllLocal(w0, bucket, keys)
  {
    && BackfillState(cfg, w0, bucket, keys, s) && UploadedOnce(cfg, w0, bucket, keys, s.world)
    && forall i :: 0 <= i < |s.procs| ==> WritesUnverified(cfg, s.world, s.procs[i])
  }

  lemma UploadNext(cfg: Config, w0: World, bucket: string, keys: set<string>, s: System, l: Label)
    requires cfg.enabled && NoSlash(bucket) && AllLocal(w0, bucket, keys)
    requires UploadState(cfg, w0, bucket, keys, s) && OnlyBackfill(bucket, keys, [l]) && FaultFree([l])
    requires forall i, j :: 0 <= i < j < |s.procs| ==> Apart(s.procs[i], s.procs[j])
    ensures UploadState(cfg, w0, bucket, keys, Next(cfg, s, l))
  {
    assert l in [l];
    BackfillStages(cfg, w0, bucket, keys, s, [l]);
    assert [l][1..] == [] && Run(cfg, s, [l]) == Run(cfg, Next(cfg, s, l), []);
    if l.Act? && l.i < |s.procs| {
      var p := s.procs[l.i];
      UploadStep(cfg, w0, bucket, keys, s.world, p);
      forall j | 0 <= j < |s.procs| && j != l.i ensures WritesUnverified(cfg, Next(cfg, s, l).world, s.procs[j]) {
        assert Apart(p, s.procs[j]);
        OthersStayUnverified(cfg, w0, bucket, keys, s.world, p, s.procs[j]);
      }
    }
  }

  lemma StepKeepsObject(cfg: Config, p: Proc, w: World, call: Call)
    ensures var p' := Step(cfg, p, w, call).0;
            p'.Finished? || (!p.Finished? && p'.loc == p.loc)
  {
  }

  lemma SeparateNext(cfg: Config, s: System, ls: seq<Label>)
    requires ls != [] && Separate(s, ls)
    ensures Separate(Next(cfg, s, ls[0]), ls[1..])
  {
    var l, s' := ls[0], Next(cfg, s, ls[0]);
    assert l in ls;
    if l.Act? && l.i < |s.procs| {
      StepKeepsObject(cfg, s.procs[l.i], s.world, l.call);
    }
    forall i, j | 0 <= i < j < |s'.procs| ensures Apart(s'.procs[i], s'.procs[j]) {
      assert j < |s.procs| ==> Apart(s.procs[i], s.procs[j]);
    }
    forall i, m | 0 <= i < |s'.procs| && m in ls[1..] && m.Spawn? ensures Apart(s'.procs[i], m.p) {
      assert m in ls;
      if i < |s.procs| {
        assert Apart(s.procs[i], m.p);
      } else {
        var k :| 0 <= k < |ls[1..]| && ls[1..][k] == m;
        assert Apart(ls[0].p, ls[k + 1].p);
      }
    }
  }

  lemma {:induction false} UploadStages(cfg: Config, w0: World, bucket: string, keys: set<string>, s: System,
                                        ls: seq<Label>)
    requires cfg.enabled && NoSlash(bucket) && AllLocal(w0, bucket, keys)
    requires UploadState(cfg, w0, bucket, keys, s)
    requires OnlyBackfill(bucket, keys, ls) && FaultFree(ls) && Separate(s, ls)
    ensures UploadState(cfg, w0, bucket, keys, Run(cfg, s, ls))
    decreases |ls|
  {
    if ls != [] {
      assert ls[0] in ls;
      UploadNext(cfg, w0, bucket, keys, s, ls[0]);
      SeparateNext(cfg, s, ls);
      UploadStages(cfg, w0, bucket, keys, Next(cfg, s, ls[0]), ls[1..]);
    }
  }

  lemma UploadsOfRun(cfg: Config, w: World, bucket: string, keys: set<string>, ls: seq<Label>, k: string)
    requires cfg.enabled && NoSlash(bucket) && AllLocal(w, bucket, keys) && k in keys
    requires OnlyBackfill(bucket, keys, ls) && FaultFree(ls) && Separate(Fresh(w), ls)
    ensures var w' := Run(cfg, Fresh(w), ls).world;
            InProgress(cfg, w, bucket, keys, w') && UploadedIfVerified(cfg, w, Loc(bucket, k), w')
  {
    UploadStages(cfg, w, bucket, keys, Fresh(w), ls);
  }

  /** However both runs were scheduled and wherever the first one's workers were
      killed: across both, every object that was not archived is uploaded exactly
      once, and one that was is not uploaded at all. */
  lemma NothingUploadedTwice(cfg: Config, w0: World, bucket: string, keys: set<string>,
                             first: seq<Label>, again: seq<Label>, k: string)
    requires cfg.InScope(bucket) && NoSlash(bucket) && AllLocal(w0, bucket, keys) && k in keys
    requires OnlyBackfill(bucket, keys, first) && FaultFree(first) && Separate(Fresh(w0), first)
    requires var w1 := Run(cfg, Fresh(w0), first).world;
             WholeBackfill(cfg, bucket, keys, w1, again) && Separate(Fresh(w1), again)
    ensures var w2 := Run(cfg, Fresh(Run(cfg, Fresh(w0), first).world), again).world;
            Uploads(w2, cfg.PlaceOf(Loc(bucket, k))) ==
              Uploads(w0, cfg.PlaceOf(Loc(bucket, k))) + if Verified(cfg, w0, Loc(bucket, k)) then 0 else 1
  {
    var w1 := Run(cfg, Fresh(w0), first).world;
    UploadsOfRun(cfg, w0, bucket, keys, first, k);
    UploadsOfRun(cfg, w1, bucket, keys, again, k);
    BackfillArchives(cfg, w1, bucket, keys, again);
    if Verified(cfg, w0, Loc(bucket, k)) {
      StaysVerified(cfg, w0, bucket, keys, w1, k);
    }
  }

  // ----- The skipped counter ------------------------------------------------------------

  /** Never answers that the archive already had the object. */
  predicate NeverSkips(p: Proc) {
    || p.BackfillList? || p.KnownVerify? || p.KnownOpen? || p.KnownPut? || p.KnownReverify? || p.KnownEvict?
    || (p.Finished? && p.res.outcome != AlreadyArchived)
  }

  lemma NeverSkipsStep(cfg: Config, p: Proc, w: World, call: Call)
    requires NeverSkips(p)
    ensures NeverSkips(Step(cfg, p, w, call).0)
  {
  }

  /** In apply mode no object is ever counted as skipped, on any schedule, whatever
      fails and whatever the archive already held. */
  lemma {:induction false} BackfillNeverCountsSkipped(cfg: Config, s: System, ls: seq<Label>)
    requires forall i :: 0 <= i < |s.procs| ==> NeverSkips(s.procs[i])
    requires forall l :: l in ls && l.Spawn? ==> l.p.BackfillList?
    ensures forall i :: 0 <= i < |Run(cfg, s, ls).procs| ==> NeverSkips(Run(cfg, s, ls).procs[i])
    decreases |ls|
  {
    if ls != [] {
      var l := ls[0];
      assert l in ls;
      if l.Act? && l.i < |s.procs| {
        NeverSkipsStep(cfg, s.procs[l.i], s.world, l.call);
      }
      BackfillNeverCountsSkipped(cfg, Next(cfg, s, l), ls[1..]);
    }
  }
}
